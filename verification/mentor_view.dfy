/**
 * The mentor dashboard of the client: the CSV text its report export
 * builds, and the attendance groups, request lists and card badges it
 * derives from the status board rows. The download itself (the blob, the
 * object URL and the anchor click) is not modelled.
 */
module MentorView {
  import opened Common
  import opened Sessions
  import opened Reports

  /* ---------------- CSV export ---------------- */

  /** A JSON object as the page receives it: its own properties in insertion order, their names distinct. */
  type Record = seq<(string, JsValue)>

  /** `Object.keys(r)`. */
  function Keys(r: Record): (k: seq<string>)
    ensures |k| == |r|
    ensures forall i :: 0 <= i < |r| ==> k[i] == r[i].0
  {
    seq(|r|, i requires 0 <= i < |r| => r[i].0)
  }

  /** `r[h]`: the value of the first property named `h`, `undefined` when there is none. */
  function Get(r: Record, h: string): (v: JsValue)
    ensures (forall i :: 0 <= i < |r| ==> r[i].0 != h) ==> v == Undefined
    ensures |r| > 0 && r[0].0 == h ==> v == r[0].1
  {
    if r == [] then Undefined
    else if r[0].0 == h then r[0].1
    else Get(r[1..], h)
  }

  /** `r[h]` is the value of the first property named `h`, wherever it stands. */
  lemma {:induction false} GetFirst(r: Record, h: string, i: int)
    requires 0 <= i < |r| && r[i].0 == h
    requires forall j :: 0 <= j < i ==> r[j].0 != h
    ensures Get(r, h) == r[i].1
  {
    if i > 0 {
      assert r[1..][i - 1] == r[i];
      GetFirst(r[1..], h, i - 1);
    }
  }

  /** `String(v ?? "")`: the text of a cell; null and undefined give the empty text. */
  function CellText(v: JsValue): (t: string)
    ensures Nullish(v) ==> t == ""
    ensures v.Str? ==> t == v.s
  {
    if Nullish(v) then "" else JsString(v)
  }

  /** `replaceAll('"', '""')`: every double quote doubled, every other character kept. */
  function Doubled(s: string): (r: string)
    ensures |r| == |s| + Count(s, '"')
    ensures forall c :: c != '"' ==> (c in r <==> c in s)
  {
    if s == [] then []
    else if s[0] == '"' then "\"\"" + Doubled(s[1..])
    else [s[0]] + Doubled(s[1..])
  }

  /** A text between double quotes, its own quotes doubled. */
  function Quote(t: string): (r: string)
    ensures |r| >= 2 && r[0] == '"' && r[|r| - 1] == '"'
  {
    "\"" + Doubled(t) + "\""
  }

  /** `esc(v)`: the quoted text of a cell. */
  function Esc(v: JsValue): (r: string)
    ensures forall c :: c != '"' ==> (c in r <==> c in CellText(v))
  {
    Quote(CellText(v))
  }

  /** The quoted cells of one record, in header order. */
  function Cells(r: Record, headers: seq<string>): (cells: seq<string>)
    ensures |cells| == |headers|
    ensures forall j :: 0 <= j < |headers| ==> cells[j] == Esc(Get(r, headers[j]))
  {
    if headers == [] then [] else [Esc(Get(r, headers[0]))] + Cells(r, headers[1..])
  }

  /** The keys of the first row: `Object.keys(rows[0] || {})`. */
  function Headers(rows: seq<Record>): (h: seq<string>)
    ensures rows == [] ==> h == []
    ensures rows != [] ==> h == Keys(rows[0])
  {
    if rows == [] then [] else Keys(rows[0])
  }

  /** The data lines, one per row, each its cells joined with commas. */
  function DataLines(rows: seq<Record>, headers: seq<string>): (lines: seq<string>)
    ensures |lines| == |rows|
    ensures forall i :: 0 <= i < |rows| ==> lines[i] == JoinWith(Cells(rows[i], headers), ',')
  {
    if rows == [] then [] else [JoinWith(Cells(rows[0], headers), ',')] + DataLines(rows[1..], headers)
  }

  /** The text `downloadCSV` saves: the header line, then one line per row, joined by newlines. */
  function CsvText(rows: seq<Record>): string {
    var headers := Headers(rows);
    JoinWith([JoinWith(headers, ',')] + DataLines(rows, headers), '\n')
  }

  /** With no rows there are no headers either, and the text is empty. */
  lemma NoRowsNoText()
    ensures CsvText([]) == ""
  {
  }

  /* A reader for quoted cells: the partner of `esc`. */

  /**
   * Reads a quoted cell whose opening quote is already consumed: a doubled
   * quote stands for one quote, a single quote closes the cell. Gives the
   * cell's text and what follows the closing quote.
   */
  function ReadQuoted(s: string): (r: Option<(string, string)>)
    ensures r.Some? ==> |r.value.1| < |s|
  {
    if s == [] then None
    else if s[0] == '"' then
      if |s| > 1 && s[1] == '"' then
        match ReadQuoted(s[2..])
        case None => None
        case Some(p) => Some(("\"" + p.0, p.1))
      else Some(("", s[1..]))
    else
      match ReadQuoted(s[1..])
      case None => None
      case Some(p) => Some(([s[0]] + p.0, p.1))
  }

  /** Reads a line of quoted cells separated by commas; None where the line is not of that form. */
  function ReadCells(s: string): (r: Option<seq<string>>)
    decreases |s|
  {
    if s == [] || s[0] != '"' then None
    else
      match ReadQuoted(s[1..])
      case None => None
      case Some(p) =>
        if p.1 == [] then Some([p.0])
        else if p.1[0] != ',' then None
        else
          match ReadCells(p.1[1..])
          case None => None
          case Some(rest) => Some([p.0] + rest)
  }

  /** A doubled text followed by a closing quote reads back as the text. */
  lemma {:induction false} ReadDoubled(t: string, rest: string)
    requires rest == [] || rest[0] != '"'
    ensures ReadQuoted(Doubled(t) + "\"" + rest) == Some((t, rest))
  {
    if t == [] {
      var s := Doubled(t) + "\"" + rest;
      assert s == "\"" + rest;
      assert s[1..] == rest;
    } else {
      ReadDoubled(t[1..], rest);
      if t[0] == '"' {
        ReadQuoteStep(t, rest);
      } else {
        ReadCharStep(t, rest);
      }
    }
  }

  lemma ReadQuoteStep(t: string, rest: string)
    requires t != [] && t[0] == '"'
    requires ReadQuoted(Doubled(t[1..]) + "\"" + rest) == Some((t[1..], rest))
    ensures ReadQuoted(Doubled(t) + "\"" + rest) == Some((t, rest))
  {
    var s := Doubled(t) + "\"" + rest;
    assert s == "\"\"" + (Doubled(t[1..]) + "\"" + rest);
    assert s[2..] == Doubled(t[1..]) + "\"" + rest;
    assert "\"" + t[1..] == t;
  }

  lemma ReadCharStep(t: string, rest: string)
    requires t != [] && t[0] != '"'
    requires ReadQuoted(Doubled(t[1..]) + "\"" + rest) == Some((t[1..], rest))
    ensures ReadQuoted(Doubled(t) + "\"" + rest) == Some((t, rest))
  {
    var s := Doubled(t) + "\"" + rest;
    assert s == [t[0]] + (Doubled(t[1..]) + "\"" + rest);
    assert s[1..] == Doubled(t[1..]) + "\"" + rest;
    assert [t[0]] + t[1..] == t;
  }

  /** The quoted cells of a list of texts. */
  function QuoteAll(texts: seq<string>): (r: seq<string>)
    ensures |r| == |texts|
    ensures forall j :: 0 <= j < |texts| ==> r[j] == Quote(texts[j])
  {
    if texts == [] then [] else [Quote(texts[0])] + QuoteAll(texts[1..])
  }

  /** A line holding a single quoted cell reads back as its text. */
  lemma ReadLastCell(t: string)
    ensures ReadCells(Quote(t)) == Some([t])
  {
    var s := Quote(t);
    assert s[1..] == Doubled(t) + "\"" + "";
    ReadDoubled(t, "");
  }

  /** A quoted cell followed by a comma reads back as its text, then the rest of the line. */
  lemma ReadNextCell(t: string, tail: string)
    ensures ReadCells(Quote(t) + [','] + tail)
            == match ReadCells(tail) case None => None case Some(rest) => Some([t] + rest)
  {
    var s := Quote(t) + [','] + tail;
    assert s[1..] == Doubled(t) + "\"" + ([','] + tail);
    ReadDoubled(t, [','] + tail);
    assert ([','] + tail)[1..] == tail;
  }

  /** Reading a line of quoted cells gives back exactly the texts, whatever quotes and commas they hold. */
  lemma {:induction false} ReadQuotedLine(texts: seq<string>)
    requires |texts| >= 1
    ensures ReadCells(JoinWith(QuoteAll(texts), ',')) == Some(texts)
  {
    var q := QuoteAll(texts);
    if |texts| == 1 {
      assert JoinWith(q, ',') == Quote(texts[0]);
      ReadLastCell(texts[0]);
      assert [texts[0]] == texts;
    } else {
      assert q[1..] == QuoteAll(texts[1..]);
      assert JoinWith(q, ',') == Quote(texts[0]) + [','] + JoinWith(q[1..], ',');
      ReadQuotedLine(texts[1..]);
      ReadNextCell(texts[0], JoinWith(q[1..], ','));
      assert [texts[0]] + texts[1..] == texts;
    }
  }

  /** The texts of a record's cells in header order. */
  function CellTexts(r: Record, headers: seq<string>): (t: seq<string>)
    ensures |t| == |headers|
    ensures forall j :: 0 <= j < |headers| ==> t[j] == CellText(Get(r, headers[j]))
  {
    seq(|headers|, j requires 0 <= j < |headers| => CellText(Get(r, headers[j])))
  }

  /** Every data line reads back as the record's values in header order. */
  lemma DataLineReadsBack(r: Record, headers: seq<string>)
    requires |headers| >= 1
    ensures ReadCells(JoinWith(Cells(r, headers), ',')) == Some(CellTexts(r, headers))
  {
    assert Cells(r, headers) == QuoteAll(CellTexts(r, headers));
    ReadQuotedLine(CellTexts(r, headers));
  }

  /** No text of a record's values holds a newline. */
  predicate SingleLineValues(r: Record) {
    forall i :: 0 <= i < |r| ==> '\n' !in CellText(r[i].1)
  }

  /** A character absent from every piece and distinct from the separator is absent from the joined text. */
  lemma {:induction false} JoinWithout(pieces: seq<string>, sep: char, c: char)
    requires c != sep
    requires forall k :: 0 <= k < |pieces| ==> c !in pieces[k]
    ensures c !in JoinWith(pieces, sep)
  {
    if |pieces| > 1 {
      JoinWithout(pieces[1..], sep, c);
    }
  }

  lemma GetWithout(r: Record, h: string)
    requires SingleLineValues(r)
    ensures '\n' !in CellText(Get(r, h))
  {
    if r != [] && r[0].0 != h {
      GetWithout(r[1..], h);
    }
  }

  lemma SingleLineData(r: Record, headers: seq<string>)
    requires SingleLineValues(r)
    ensures '\n' !in JoinWith(Cells(r, headers), ',')
  {
    var cells := Cells(r, headers);
    forall j | 0 <= j < |cells|
      ensures '\n' !in cells[j]
    {
      GetWithout(r, headers[j]);
    }
    JoinWithout(cells, ',', '\n');
  }

  /**
   * The exported text has one line more than there are rows: the first
   * holds the first row's keys separated by commas, and line i + 1 reads
   * back as row i's values taken in that key order (absent keys as empty
   * cells). This holds when no key holds a comma or a newline and no
   * value's text holds a newline.
   */
  lemma CsvLines(rows: seq<Record>)
    requires |rows| >= 1 && |rows[0]| >= 1
    requires forall j :: 0 <= j < |rows[0]| ==> ',' !in rows[0][j].0 && '\n' !in rows[0][j].0
    requires forall i :: 0 <= i < |rows| ==> SingleLineValues(rows[i])
    ensures var lines := Split(CsvText(rows), '\n');
            |lines| == |rows| + 1
            && Split(lines[0], ',') == Keys(rows[0])
            && forall i :: 0 <= i < |rows| ==> ReadCells(lines[i + 1]) == Some(CellTexts(rows[i], Keys(rows[0])))
  {
    var headers := Keys(rows[0]);
    var data := DataLines(rows, headers);
    CsvPieces(rows);
    SplitJoin(headers, ',');
    forall i | 0 <= i < |data|
      ensures ReadCells(data[i]) == Some(CellTexts(rows[i], headers))
    {
      DataLineReadsBack(rows[i], headers);
    }
  }

  /** Splitting the text at newlines gives back the header line and the data lines. */
  lemma CsvPieces(rows: seq<Record>)
    requires |rows| >= 1
    requires forall j :: 0 <= j < |rows[0]| ==> '\n' !in rows[0][j].0
    requires forall i :: 0 <= i < |rows| ==> SingleLineValues(rows[i])
    ensures Split(CsvText(rows), '\n') == [JoinWith(Keys(rows[0]), ',')] + DataLines(rows, Keys(rows[0]))
  {
    var headers := Keys(rows[0]);
    var pieces := [JoinWith(headers, ',')] + DataLines(rows, headers);
    assert Headers(rows) == headers;
    assert forall j :: 0 <= j < |headers| ==> '\n' !in headers[j];
    SingleLinePieces(rows, headers, pieces);
    SplitJoin(pieces, '\n');
  }

  lemma SingleLinePieces(rows: seq<Record>, headers: seq<string>, pieces: seq<string>)
    requires forall j :: 0 <= j < |headers| ==> '\n' !in headers[j]
    requires forall i :: 0 <= i < |rows| ==> SingleLineValues(rows[i])
    requires pieces == [JoinWith(headers, ',')] + DataLines(rows, headers)
    ensures forall k :: 0 <= k < |pieces| ==> '\n' !in pieces[k]
  {
    var data := DataLines(rows, headers);
    forall i | 0 <= i < |data|
      ensures '\n' !in data[i]
    {
      SingleLineData(rows[i], headers);
    }
    JoinWithout(headers, ',', '\n');
    PrependLine(JoinWith(headers, ','), data);
  }

  lemma PrependLine(h: string, data: seq<string>)
    requires '\n' !in h
    requires forall i :: 0 <= i < |data| ==> '\n' !in data[i]
    ensures forall k :: 0 <= k < |[h] + data| ==> '\n' !in ([h] + data)[k]
  {
  }

  /* ---------------- Attendance groups ---------------- */

  /** `r.clock_in_at && !r.clock_out_at`. */
  predicate IsIn(r: BoardRow) {
    r.ClockInAt().Some? && r.ClockOutAt().None?
  }

  /** `r.clock_in_at && r.clock_out_at`. */
  predicate IsOut(r: BoardRow) {
    r.ClockInAt().Some? && r.ClockOutAt().Some?
  }

  /** `!r.clock_in_at`. */
  predicate IsNotIn(r: BoardRow) {
    r.ClockInAt().None?
  }

  predicate NeedsHelp(r: BoardRow) {
    r.NeedHelp()
  }

  predicate NeedsTask(r: BoardRow) {
    r.NeedTask()
  }

  /** `rows.filter(p)`: the rows satisfying `p`, in order. */
  function Filter(rows: seq<BoardRow>, p: BoardRow -> bool): (r: seq<BoardRow>)
    ensures |r| <= |rows|
    ensures forall x :: x in r <==> x in rows && p(x)
  {
    if rows == [] then []
    else if p(rows[0]) then [rows[0]] + Filter(rows[1..], p)
    else Filter(rows[1..], p)
  }

  /** The status a board row's day reads as on the server. */
  function RowStatus(r: BoardRow): Status {
    if r.session.Some? then PickStatus(r.session.value) else NotClockedIn
  }

  /** Each group is exactly the rows of one server status. */
  lemma GroupsFollowStatus(r: BoardRow)
    ensures IsIn(r) <==> RowStatus(r) == ClockedIn
    ensures IsOut(r) <==> RowStatus(r) == ClockedOut
    ensures IsNotIn(r) <==> RowStatus(r) == NotClockedIn
  {
  }

  /**
   * Clocked in, clocked out and not clocked in split the board: every row
   * lands in exactly one group, and together the groups are the board.
   */
  lemma GroupsPartition(rows: seq<BoardRow>)
    ensures |Filter(rows, IsIn)| + |Filter(rows, IsOut)| + |Filter(rows, IsNotIn)| == |rows|
    ensures multiset(Filter(rows, IsIn)) + multiset(Filter(rows, IsOut)) + multiset(Filter(rows, IsNotIn)) == multiset(rows)
    ensures forall r :: r in rows ==> (r in Filter(rows, IsIn) <==> r !in Filter(rows, IsOut) && r !in Filter(rows, IsNotIn))
    ensures forall r :: r in rows ==> r in Filter(rows, IsIn) || r in Filter(rows, IsOut) || r in Filter(rows, IsNotIn)
  {
    GroupsMultiset(rows);
    assert |multiset(rows)| == |rows|;
  }

  lemma {:induction false} GroupsMultiset(rows: seq<BoardRow>)
    ensures multiset(Filter(rows, IsIn)) + multiset(Filter(rows, IsOut)) + multiset(Filter(rows, IsNotIn)) == multiset(rows)
  {
    if rows != [] {
      var h, tl := rows[0], rows[1..];
      GroupsMultiset(tl);
      assert rows == [h] + tl;
      var a, b, c := Filter(tl, IsIn), Filter(tl, IsOut), Filter(tl, IsNotIn);
      if IsIn(h) {
        assert Filter(rows, IsIn) == [h] + a;
        AddToPart3(h, multiset(a), multiset(b), multiset(c), multiset(tl));
      } else if IsOut(h) {
        assert Filter(rows, IsOut) == [h] + b;
        AddToPart3(h, multiset(a), multiset(b), multiset(c), multiset(tl));
      } else {
        assert Filter(rows, IsNotIn) == [h] + c;
        AddToPart3(h, multiset(a), multiset(b), multiset(c), multiset(tl));
      }
    }
  }

  /** The number on the "Help / Task" tile: `needHelp.length + needTask.length`. */
  function HelpTaskTile(rows: seq<BoardRow>): (n: nat)
    ensures n <= 2 * |rows|
  {
    |Filter(rows, NeedsHelp)| + |Filter(rows, NeedsTask)|
  }

  /**
   * The tile counts the students with any request, plus once more each
   * student who asked for both help and a task.
   */
  lemma {:induction false} TileCountsBothTwice(rows: seq<BoardRow>)
    ensures HelpTaskTile(rows)
            == |Filter(rows, r => NeedsHelp(r) || NeedsTask(r))| + |Filter(rows, r => NeedsHelp(r) && NeedsTask(r))|
  {
    if rows != [] {
      TileCountsBothTwice(rows[1..]);
    }
  }

  /** `state` on a student card: "IN", "OUT" or "—". */
  function Badge(r: BoardRow): (s: string)
    ensures s == "IN" <==> RowStatus(r) == ClockedIn
    ensures s == "OUT" <==> RowStatus(r) == ClockedOut
    ensures s == "—" <==> RowStatus(r) == NotClockedIn
  {
    if IsIn(r) then "IN" else if IsOut(r) then "OUT" else "—"
  }
}
