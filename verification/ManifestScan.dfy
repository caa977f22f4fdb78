/**
 * Scanning a string list out of the manifest, and the printer it must agree with
 * (crates/rlmesh-proto/build_manifest.rs; scripts/bump_version.py).
 */
module ManifestScan {
  import opened Wrappers
  import opened Texts

  // ----- The scan

  /** The value of one entry: what is between its first two quotes, if it starts with one. */
  function Item(entry: string): Option<string> {
    var t := Trim(entry);
    if t != "" && t[0] == '"' && '"' in t[1..] then Some(Before(t[1..], '"')) else None
  }

  function Items(entries: seq<string>): seq<string> {
    if entries == [] then []
    else (if Item(entries[0]).Some? then [Item(entries[0]).value] else []) + Items(entries[1..])
  }

  function Values(text: string): seq<string> {
    Items(SplitOn(text, ','))
  }

  /** The array's text: each line up to its comment, ending at the first bracket. */
  function Body(lines: seq<string>): string {
    if lines == [] then ""
    else
      var line := Before(lines[0], '#');
      if ']' in line then Before(line, ']') else line + "," + Body(lines[1..])
  }

  function Trimmed(lines: seq<string>): seq<string> {
    seq(|lines|, i requires 0 <= i < |lines| => Trim(lines[i]))
  }

  /** The trimmed lines from the one that opens the array, without its opening. */
  function Opened(lines: seq<string>, opening: string): seq<string> {
    if lines == [] then []
    else if opening <= Trim(lines[0]) then [Trim(lines[0])[|opening|..]] + Trimmed(lines[1..])
    else Opened(lines[1..], opening)
  }

  function Opening(key: string): string {
    key + " = ["
  }

  function Scan(lines: seq<string>, key: string): seq<string> {
    Values(Body(Opened(lines, Opening(key))))
  }

  lemma BodyFrom(rows: seq<string>, i: nat)
    requires i < |rows|
    ensures var line := Before(rows[i], '#');
            Body(rows[i..]) == if ']' in line then Before(line, ']') else line + "," + Body(rows[i + 1..])
  {
    hide Before;
    assert rows[i..][1..] == rows[i + 1..];
  }

  method ManifestStringList(text: string, key: string) returns (values: seq<string>)
    ensures values == Scan(Lines(text), key)
  {
    hide Before, Body, Values, Opened, Lines;
    var rows := FindArray(Lines(text), Opening(key));
    var items := "";
    assert rows[0..] == rows;
    var i := 0;
    while i < |rows|
      invariant 0 <= i <= |rows| && Body(rows) == items + Body(rows[i..])
    {
      BodyFrom(rows, i);
      var line := Before(rows[i], '#');
      if ']' in line {
        return Values(items + Before(line, ']'));
      }
      assert items + (line + "," + Body(rows[i + 1..])) == items + line + "," + Body(rows[i + 1..]);
      items := items + line + ",";
      i := i + 1;
    }
    EmptyBody(rows[i..]);
    assert items + "" == items;
    values := Values(items);
  }

  lemma EmptyBody(rows: seq<string>)
    requires rows == []
    ensures Body(rows) == ""
  {
  }

  method FindArray(lines: seq<string>, opening: string) returns (rows: seq<string>)
    ensures rows == Opened(lines, opening)
  {
    for i := 0 to |lines|
      invariant Opened(lines, opening) == Opened(lines[i..], opening)
    {
      assert lines[i..][1..] == lines[i + 1..];
      var line := Trim(lines[i]);
      if opening <= line {
        return [line[|opening|..]] + Trimmed(lines[i + 1..]);
      }
    }
    return [];
  }

  // ----- How an array may be written

  /** What stands between two commas: an entry with space around it, or just space. */
  datatype Piece =
    | Gap(space: string)
    | Entry(before: string, name: string, after: string)

  /** One row of an array that goes on: its pieces, then perhaps a comment. */
  datatype Row = Row(pieces: seq<Piece>, comment: Option<string>)

  function PieceText(p: Piece): string {
    match p
    case Gap(space) => space
    case Entry(before, name, after) => before + "\"" + name + "\"" + after
  }

  function PiecesText(pieces: seq<Piece>): string {
    if pieces == [] then ""
    else if |pieces| == 1 then PieceText(pieces[0])
    else PieceText(pieces[0]) + "," + PiecesText(pieces[1..])
  }

  function RowText(row: Row): string {
    PiecesText(row.pieces) + if row.comment.Some? then "#" + row.comment.value else ""
  }

  function RowTexts(rows: seq<Row>): seq<string> {
    seq(|rows|, i requires 0 <= i < |rows| => RowText(rows[i]))
  }

  /** The lines of an array: rows, then the closing row and whatever follows its bracket. */
  function ArrayLines(indent: string, key: string, rows: seq<Row>, last: seq<Piece>, tail: string): seq<string> {
    var close := PiecesText(last) + "]" + tail;
    if rows == [] then [indent + Opening(key) + close]
    else [indent + Opening(key) + RowText(rows[0])] + RowTexts(rows[1..]) + [close]
  }

  function PieceNames(pieces: seq<Piece>): seq<string> {
    if pieces == [] then []
    else (if pieces[0].Entry? then [pieces[0].name] else []) + PieceNames(pieces[1..])
  }

  function RowNames(rows: seq<Row>): seq<string> {
    if rows == [] then [] else PieceNames(rows[0].pieces) + RowNames(rows[1..])
  }

  ghost predicate Plain(name: string) {
    '"' !in name && ',' !in name && ']' !in name && '#' !in name
  }

  ghost predicate Proper(p: Piece) {
    match p
    case Gap(space) => Blank(space)
    case Entry(before, name, after) => Blank(before) && Blank(after) && Plain(name)
  }

  ghost predicate AllProper(pieces: seq<Piece>) {
    forall i :: 0 <= i < |pieces| ==> Proper(pieces[i])
  }

  // ----- Values are insensitive to layout

  lemma {:induction false} ItemsBoth(a: seq<string>, b: seq<string>)
    ensures Items(a + b) == Items(a) + Items(b)
  {
    hide Item;
    if a == [] {
      assert a + b == b;
    } else {
      assert (a + b)[1..] == a[1..] + b;
      ItemsBoth(a[1..], b);
    }
  }

  /** An entry has a value exactly when it starts, space aside, with that value in quotes. */
  lemma ItemIff(entry: string, value: string)
    ensures Item(entry) == Some(value) <==> '"' !in value && "\"" + value + "\"" <= Trim(entry)
  {
    hide Trim, Before;
    var t := Trim(entry);
    if Item(entry) == Some(value) {
      assert t == "\"" + value + "\"" + t[|value| + 2..];
    }
    if '"' !in value && "\"" + value + "\"" <= t {
      var rest := t[|value| + 2..];
      assert t[0] == ("\"" + value + "\"")[0];
      assert t == "\"" + value + "\"" + rest;
      assert t[1..] == value + ['"'] + rest;
      assert t[1..][|value|] == '"';
      BeforeAt(value, '"', rest);
    }
  }

  /** A comma separates the values before it from the values after it. */
  lemma ValuesBoth(a: string, b: string)
    ensures Values(a + "," + b) == Values(a) + Values(b)
  {
    hide SplitOn, Items;
    SplitBoth(a, ',', b);
    assert a + "," + b == a + [','] + b;
    ItemsBoth(SplitOn(a, ','), SplitOn(b, ','));
  }

  lemma ValuesOfOne(s: string)
    requires ',' !in s
    ensures Values(s) == if Item(s).Some? then [Item(s).value] else []
  {
    hide Item, SplitOn;
    SplitNone(s, ',');
    assert Items([s]) == (if Item(s).Some? then [Item(s).value] else []) + Items([s][1..]);
  }

  lemma ItemPadded(pad: string, s: string, end: string)
    requires Blank(pad) && Blank(end)
    ensures Item(pad + s + end) == Item(s)
  {
    hide TrimStart, TrimEnd;
    assert pad + s + end == pad + (s + end);
    TrimStartBlank(pad, s + end);
    TrimPadded(s, end);
  }

  lemma TrimPadded(s: string, end: string)
    requires Blank(end)
    ensures TrimEnd(TrimStart(s + end)) == TrimEnd(TrimStart(s))
  {
    TrimStartSplits(s);
    var n := |s| - |TrimStart(s)|;
    var pad, rest := s[..n], TrimStart(s);
    assert s + end == pad + (rest + end);
    TrimStartBlank(pad, rest + end);
    if rest == "" {
      assert rest + end == end + "";
      TrimStartBlank(end, "");
    } else {
      NotBlankFirst(s);
      assert TrimStart(rest + end) == rest + end;
      TrimEndBlank(rest, end);
    }
  }

  lemma {:induction false} NotBlankFirst(s: string)
    requires TrimStart(s) != ""
    ensures !Space(TrimStart(s)[0])
  {
    if Space(s[0]) {
      NotBlankFirst(s[1..]);
    }
  }

  lemma {:induction false} BlankHasNo(pad: string, c: char)
    requires Blank(pad) && !Space(c)
    ensures c !in pad
  {
  }

  /** Space before or after a text changes none of its values. */
  lemma {:induction false} ValuesPadded(pad: string, s: string, end: string)
    requires Blank(pad) && Blank(end)
    ensures Values(pad + s + end) == Values(s)
    decreases |s|
  {
    hide Values, Item, Blank, Before;
    BlankHasNo(pad, ',');
    BlankHasNo(end, ',');
    if ',' in s {
      var t := Before(s, ',');
      var rest := s[|t| + 1..];
      BlankNothing();
      ValuesPadded(pad, t, "");
      ValuesPadded("", rest, end);
      ValuesBoth(t, rest);
      ValuesBoth(pad + t + "", "" + rest + end);
      assert s == t + "," + rest;
      assert pad + s + end == (pad + t + "") + "," + ("" + rest + end);
    } else {
      ItemPadded(pad, s, end);
      ValuesOfOne(s);
      ValuesOfOne(pad + s + end);
    }
  }

  lemma BlankNothing()
    ensures Blank("")
  {
  }

  lemma ValuesTrimmed(s: string)
    ensures Values(TrimStart(s)) == Values(s) && Values(TrimEnd(s)) == Values(s)
  {
    hide Values, TrimStart, TrimEnd, Blank;
    BlankNothing();
    TrimStartSplits(s);
    var n := |s| - |TrimStart(s)|;
    assert s == s[..n] + TrimStart(s) + "";
    ValuesPadded(s[..n], TrimStart(s), "");
    TrimEndSplits(s);
    assert s == "" + TrimEnd(s) + s[|TrimEnd(s)|..];
    ValuesPadded("", TrimEnd(s), s[|TrimEnd(s)|..]);
  }

  // ----- Pieces and rows

  lemma GapValue(space: string)
    requires Blank(space)
    ensures Values(space) == [] && ']' !in space && '#' !in space
  {
    hide Values, Item;
    BlankHasNo(space, ',');
    BlankHasNo(space, ']');
    BlankHasNo(space, '#');
    assert space == space + "" + "";
    ItemPadded(space, "", "");
    NothingItem();
    ValuesOfOne(space);
  }

  lemma NothingItem()
    ensures Item("") == None
  {
  }

  lemma EntryValue(before: string, name: string, after: string)
    requires Proper(Entry(before, name, after))
    ensures var text := PieceText(Entry(before, name, after));
            Values(text) == [name] && ']' !in text && '#' !in text
  {
    hide Values, Item, Blank;
    var quoted := "\"" + name + "\"";
    var text := PieceText(Entry(before, name, after));
    assert text == before + quoted + after;
    forall c | c in {',', ']', '#'} ensures c !in text {
      BlankHasNo(before, c);
      BlankHasNo(after, c);
    }
    ItemPadded(before, quoted, after);
    QuotedItem(name);
    ValuesOfOne(text);
  }

  lemma QuotedItem(name: string)
    requires Plain(name)
    ensures Item("\"" + name + "\"") == Some(name)
  {
    var quoted := "\"" + name + "\"";
    assert Trim(quoted) == quoted;
    assert quoted[1..] == name + ['"'] + "";
    assert quoted[1..][|name|] == '"';
    BeforeAt(name, '"', "");
  }

  lemma {:induction false} PiecesValues(pieces: seq<Piece>)
    requires AllProper(pieces)
    ensures Values(PiecesText(pieces)) == PieceNames(pieces)
    ensures ']' !in PiecesText(pieces) && '#' !in PiecesText(pieces)
  {
    hide Values, PieceText, Blank, Plain;
    if pieces == [] {
      BlankNothing();
      GapValue("");
    } else {
      PieceValue(pieces[0]);
      if |pieces| > 1 {
        PiecesValues(pieces[1..]);
        ValuesBoth(PieceText(pieces[0]), PiecesText(pieces[1..]));
      }
    }
  }

  lemma PieceValue(p: Piece)
    requires Proper(p)
    ensures Values(PieceText(p)) == if p.Entry? then [p.name] else []
    ensures ']' !in PieceText(p) && '#' !in PieceText(p)
  {
    hide Values;
    match p
    case Gap(space) => GapValue(space);
    case Entry(before, name, after) => EntryValue(before, name, after);
  }

  /** A scanned line that does not close the array: its values are the row's names. */
  ghost predicate Carries(line: string, names: seq<string>) {
    ']' !in Before(line, '#') && Values(Before(line, '#')) == names
  }

  /** A scanned line that closes the array. */
  ghost predicate Closes(line: string, names: seq<string>) {
    ']' in Before(line, '#') && Values(Before(Before(line, '#'), ']')) == names
  }

  lemma {:induction false} TrimKeeps(s: string, c: char)
    requires c !in s
    ensures c !in TrimEnd(s) && c !in TrimStart(s)
  {
    TrimEndSplits(s);
    TrimStartSplits(s);
  }

  /** A row carries its names, whether or not the scan trimmed its start. */
  lemma RowCarries(row: Row, line: string)
    requires AllProper(row.pieces)
    requires line == TrimEnd(RowText(row)) || line == Trim(RowText(row))
    ensures Carries(line, PieceNames(row.pieces))
  {
    hide Values, TrimStart, TrimEnd, Before, PiecesText, PieceNames, AllProper;
    var text := PiecesText(row.pieces);
    PiecesValues(row.pieces);
    TrimmedValues(text);
    if row.comment.None? {
      assert RowText(row) == text;
    } else {
      assert RowText(row) == text + ['#'] + row.comment.value;
      MarkedLine(text, '#', row.comment.value, line);
      var head :| (head == text || head == TrimStart(text)) && line == head + ['#'] + TrimEnd(row.comment.value);
      BeforeAt(head, '#', TrimEnd(row.comment.value));
    }
  }

  /** The closing row: everything from its bracket on is dropped. */
  lemma LastCloses(pieces: seq<Piece>, tail: string, line: string)
    requires AllProper(pieces)
    requires line == TrimEnd(PiecesText(pieces) + "]" + tail) || line == Trim(PiecesText(pieces) + "]" + tail)
    ensures Closes(line, PieceNames(pieces))
  {
    hide Values, TrimStart, TrimEnd, Before, PiecesText, PieceNames, AllProper;
    var text := PiecesText(pieces);
    PiecesValues(pieces);
    TrimmedValues(text);
    MarkedLine(text, ']', tail, line);
    var head :| (head == text || head == TrimStart(text)) && line == head + [']'] + TrimEnd(tail);
    BracketFirst(head, TrimEnd(tail));
  }

  lemma BracketFirst(head: string, rest: string)
    requires ']' !in head && '#' !in head
    ensures var line := Before(head + [']'] + rest, '#');
            ']' in line && Before(line, ']') == head
  {
    hide Before;
    var full := head + [']'] + rest;
    var line := Before(full, '#');
    assert forall i :: 0 <= i <= |head| ==> full[i] != '#';
    assert line[|head|] == ']';
    assert line == head + [']'] + line[|head| + 1..];
    BeforeAt(head, ']', line[|head| + 1..]);
  }

  /** Trimming keeps the values of a text and the characters it lacks. */
  lemma TrimmedValues(text: string)
    ensures Values(TrimStart(text)) == Values(text)
    ensures Values(TrimEnd(text)) == Values(text) && Values(TrimEnd(TrimStart(text))) == Values(text)
    ensures forall c :: c !in text ==> c !in TrimStart(text) && c !in TrimEnd(text) && c !in TrimEnd(TrimStart(text))
  {
    hide Values, TrimStart, TrimEnd;
    ValuesTrimmed(text);
    ValuesTrimmed(TrimStart(text));
    forall c | c !in text ensures c !in TrimStart(text) && c !in TrimEnd(text) && c !in TrimEnd(TrimStart(text)) {
      TrimKeeps(text, c);
      TrimKeeps(TrimStart(text), c);
    }
  }

  /** Trimming a line around a mark leaves the text before the mark, perhaps without its leading space. */
  lemma MarkedLine(text: string, c: char, rest: string, line: string)
    requires c !in text && !Space(c)
    requires line == TrimEnd(text + [c] + rest) || line == Trim(text + [c] + rest)
    ensures exists head :: (head == text || head == TrimStart(text)) && line == head + [c] + TrimEnd(rest)
  {
    var full := text + [c] + rest;
    if line == TrimEnd(full) {
      TrimEndStops(text + [c], rest);
      assert line == text + [c] + TrimEnd(rest);
    } else {
      TrimStartSplits(text);
      var head := TrimStart(text);
      var pad := text[..|text| - |head|];
      assert full == pad + (head + [c] + rest);
      TrimStartBlank(pad, head + [c] + rest);
      if head != "" {
        NotBlankFirst(text);
      }
      assert TrimStart(head + [c] + rest) == head + [c] + rest;
      TrimEndStops(head + [c], rest);
      assert line == head + [c] + TrimEnd(rest);
    }
  }

  // ----- The whole array

  lemma {:induction false} BodyValues(lines: seq<string>, rows: seq<Row>, last: seq<Piece>)
    requires |lines| > |rows|
    requires forall i :: 0 <= i < |rows| ==> Carries(lines[i], PieceNames(rows[i].pieces))
    requires Closes(lines[|rows|], PieceNames(last))
    ensures Values(Body(lines)) == RowNames(rows) + PieceNames(last)
  {
    hide Values, Before, PieceNames;
    if rows != [] {
      assert Carries(lines[0], PieceNames(rows[0].pieces));
      BodyValues(lines[1..], rows[1..], last);
      ValuesBoth(Before(lines[0], '#'), Body(lines[1..]));
    }
  }

  lemma {:induction false} OpenedAfter(before: seq<string>, lines: seq<string>, opening: string)
    requires forall i :: 0 <= i < |before| ==> !(opening <= Trim(before[i]))
    ensures Opened(before + lines, opening) == Opened(lines, opening)
  {
    hide Trim;
    if before == [] {
      assert before + lines == lines;
    } else {
      assert (before + lines)[1..] == before[1..] + lines;
      OpenedAfter(before[1..], lines, opening);
    }
  }

  /** The opening line trims to the opening and the rest of the line, less its trailing space. */
  lemma OpeningLine(indent: string, key: string, rest: string)
    requires Blank(indent) && key != "" && !Space(key[0])
    ensures Trim(indent + Opening(key) + rest) == Opening(key) + TrimEnd(rest)
  {
    assert indent + Opening(key) + rest == indent + (Opening(key) + rest);
    TrimStartBlank(indent, Opening(key) + rest);
    assert TrimStart(Opening(key) + rest) == Opening(key) + rest;
    TrimEndStops(Opening(key), rest);
  }

  ghost predicate ProperArray(rows: seq<Row>, last: seq<Piece>) {
    AllProper(last) && forall i :: 0 <= i < |rows| ==> AllProper(rows[i].pieces)
  }

  /**
   * However an array is spread over lines, with indents, comments, blank rows and
   * trailing commas, the scan reads its names in order.
   */
  lemma ScanReadsTheArray(
      before: seq<string>, indent: string, key: string, rows: seq<Row>, last: seq<Piece>, tail: string, after: seq<string>)
    requires Blank(indent) && key != "" && !Space(key[0]) && ProperArray(rows, last)
    requires forall i :: 0 <= i < |before| ==> !(Opening(key) <= Trim(before[i]))
    ensures Scan(before + (ArrayLines(indent, key, rows, last, tail) + after), key) == RowNames(rows) + PieceNames(last)
  {
    hide Values, Body, PieceNames, RowNames, Trim, TrimEnd, Opening, ArrayLines, Opened;
    var lines := ArrayLines(indent, key, rows, last, tail) + after;
    OpenedAfter(before, lines, Opening(key));
    OpensTheArray(indent, key, rows, last, tail, after);
    var scanned := Opened(lines, Opening(key));
    RowsCarry(indent, key, rows, last, tail, after);
    BodyValues(scanned, rows, last);
  }

  /** The lines after the opening one are scanned trimmed; the opening one loses its trailing space. */
  lemma OpensTheArray(indent: string, key: string, rows: seq<Row>, last: seq<Piece>, tail: string, after: seq<string>)
    requires Blank(indent) && key != "" && !Space(key[0])
    ensures var lines := ArrayLines(indent, key, rows, last, tail) + after;
            var first := if rows == [] then PiecesText(last) + "]" + tail else RowText(rows[0]);
            && lines != [] && Opened(lines, Opening(key)) == [TrimEnd(first)] + Trimmed(lines[1..])
  {
    hide PiecesText, RowText, Trim, TrimEnd, Opening, Trimmed;
    var lines := ArrayLines(indent, key, rows, last, tail) + after;
    var first := if rows == [] then PiecesText(last) + "]" + tail else RowText(rows[0]);
    OpeningLine(indent, key, first);
    assert lines[0] == indent + Opening(key) + first;
  }

  lemma RowsCarry(indent: string, key: string, rows: seq<Row>, last: seq<Piece>, tail: string, after: seq<string>)
    requires Blank(indent) && key != "" && !Space(key[0]) && ProperArray(rows, last)
    ensures var scanned := Opened(ArrayLines(indent, key, rows, last, tail) + after, Opening(key));
            && |scanned| > |rows|
            && (forall i :: 0 <= i < |rows| ==> Carries(scanned[i], PieceNames(rows[i].pieces)))
            && Closes(scanned[|rows|], PieceNames(last))
  {
    hide Values, PieceNames, PiecesText, RowText, Trim, TrimEnd, Carries, Closes, Opening, Opened, AllProper;
    var lines := ArrayLines(indent, key, rows, last, tail) + after;
    OpensTheArray(indent, key, rows, last, tail, after);
    var scanned := Opened(lines, Opening(key));
    var close := PiecesText(last) + "]" + tail;
    assert forall i :: 0 < i < |lines| ==> scanned[i] == Trim(lines[i]);
    forall i | 0 <= i < |rows| ensures Carries(scanned[i], PieceNames(rows[i].pieces)) {
      assert i > 0 ==> lines[i] == RowText(rows[i]);
      RowCarries(rows[i], scanned[i]);
    }
    assert |rows| > 0 ==> lines[|rows|] == close;
    LastCloses(last, tail, scanned[|rows|]);
  }

  // ----- The printer

  function Quoted(name: string): string {
    "\"" + name + "\""
  }

  function Joined(names: seq<string>): string {
    if names == [] then "" else if |names| == 1 then Quoted(names[0]) else Quoted(names[0]) + ", " + Joined(names[1..])
  }

  function Printed(names: seq<string>): string {
    "[" + Joined(names) + "]"
  }

  function PrintedPieces(names: seq<string>, space: string): seq<Piece> {
    if names == [] then [] else [Entry(space, names[0], "")] + PrintedPieces(names[1..], " ")
  }

  lemma {:induction false} PrintedNames(names: seq<string>, space: string)
    requires Blank(space) && forall i :: 0 <= i < |names| ==> Plain(names[i])
    ensures AllProper(PrintedPieces(names, space)) && PieceNames(PrintedPieces(names, space)) == names
  {
    hide Plain;
    if names != [] {
      PrintedNames(names[1..], " ");
      assert PrintedPieces(names, space)[1..] == PrintedPieces(names[1..], " ");
      assert names == [names[0]] + names[1..];
    }
  }

  lemma {:induction false} PrintedText(names: seq<string>, space: string)
    ensures PiecesText(PrintedPieces(names, space)) == if names == [] then "" else space + Joined(names)
  {
    hide PieceText, Quoted;
    if names != [] {
      var rest := PrintedPieces(names[1..], " ");
      PrintedText(names[1..], " ");
      assert PrintedPieces(names, space)[1..] == rest;
      EntryText(space, names[0]);
      if |names| > 1 {
        assert space + Quoted(names[0]) + "," + (" " + Joined(names[1..]))
            == space + (Quoted(names[0]) + ", " + Joined(names[1..]));
      }
    }
  }

  lemma EntryText(space: string, name: string)
    ensures PieceText(Entry(space, name, "")) == space + Quoted(name)
  {
  }

  lemma OneLineArray(key: string, joined: string)
    ensures "" + Opening(key) + (joined + "]" + "") == key + " = " + ("[" + joined + "]")
  {
  }

  /** Scanning what was printed gives the names back, whatever stands around that line. */
  lemma PrintThenScan(text: string, before: seq<string>, key: string, names: seq<string>, after: seq<string>)
    requires key != "" && !Space(key[0]) && forall i :: 0 <= i < |names| ==> Plain(names[i])
    requires forall i :: 0 <= i < |before| ==> !(Opening(key) <= Trim(before[i]))
    requires Lines(text) == before + ([key + " = " + Printed(names)] + after)
    ensures Scan(Lines(text), key) == names
  {
    hide Scan, Plain, Trim, Lines, PiecesText, PieceNames, Joined, PrintedPieces, AllProper;
    var pieces := PrintedPieces(names, "");
    PrintedNames(names, "");
    PrintedText(names, "");
    EmptyJoined();
    assert "" + Joined(names) == Joined(names);
    ScanReadsTheArray(before, "", key, [], pieces, "", after);
    OneLineArray(key, Joined(names));
  }

  lemma EmptyJoined()
    ensures Joined([]) == ""
  {
  }

  // ----- Only plain names come out

  lemma {:induction false} BodyIsCut(lines: seq<string>)
    ensures ']' !in Body(lines) && '#' !in Body(lines)
  {
    if lines != [] {
      BodyIsCut(lines[1..]);
    }
  }

  /** The parts of a text lack the separator and whatever the text lacks. */
  lemma {:induction false} PartsLack(s: string, sep: char, c: char)
    requires c !in s || c == sep
    ensures forall i :: 0 <= i < |SplitOn(s, sep)| ==> c !in SplitOn(s, sep)[i]
    decreases |s|
  {
    hide Before;
    if sep in s {
      PartsLack(s[|Before(s, sep)| + 1..], sep, c);
    }
  }

  lemma ItemIsPlain(entry: string)
    requires ',' !in entry && ']' !in entry && '#' !in entry && Item(entry).Some?
    ensures Plain(Item(entry).value)
  {
    hide Trim;
    TrimLacks(entry, ',');
    TrimLacks(entry, ']');
    TrimLacks(entry, '#');
  }

  lemma TrimLacks(s: string, c: char)
    requires c !in s
    ensures c !in Trim(s)
  {
    TrimKeeps(s, c);
    TrimKeeps(TrimStart(s), c);
  }

  ghost predicate AllPlain(names: seq<string>) {
    forall i :: 0 <= i < |names| ==> Plain(names[i])
  }

  lemma {:induction false} ItemsArePlain(entries: seq<string>)
    requires forall i :: 0 <= i < |entries| ==> ',' !in entries[i] && ']' !in entries[i] && '#' !in entries[i]
    ensures AllPlain(Items(entries))
  {
    hide Item, Plain;
    if entries != [] {
      ItemsArePlain(entries[1..]);
      if Item(entries[0]).Some? {
        ItemIsPlain(entries[0]);
      }
    }
  }

  /** Whatever the text, a scan returns plain names alone. */
  lemma ScanReturnsPlainNames(lines: seq<string>, key: string)
    ensures AllPlain(Scan(lines, key))
  {
    hide Body, SplitOn, Items, Plain, Opened;
    var body := Body(Opened(lines, Opening(key)));
    BodyIsCut(Opened(lines, Opening(key)));
    PartsLack(body, ',', ',');
    PartsLack(body, ',', ']');
    PartsLack(body, ',', '#');
    ItemsArePlain(SplitOn(body, ','));
  }

  /** A printed list scans back if and only if all its names are plain. */
  lemma PrintThenScanIff(text: string, before: seq<string>, key: string, names: seq<string>, after: seq<string>)
    requires key != "" && !Space(key[0])
    requires forall i :: 0 <= i < |before| ==> !(Opening(key) <= Trim(before[i]))
    requires Lines(text) == before + ([key + " = " + Printed(names)] + after)
    ensures Scan(Lines(text), key) == names <==> AllPlain(names)
  {
    hide Scan, Trim, Lines, Plain;
    ScanReturnsPlainNames(Lines(text), key);
    if AllPlain(names) {
      PrintThenScan(text, before, key, names, after);
    }
  }

  // ----- The retained editions file

  /** The trimmed lines that are not empty. */
  function Retained(lines: seq<string>): seq<string> {
    if lines == [] then []
    else (if Trim(lines[0]) == "" then [] else [Trim(lines[0])]) + Retained(lines[1..])
  }

  lemma {:induction false} RetainedKeeps(names: seq<string>)
    requires forall i :: 0 <= i < |names| ==> names[i] != "" && Trim(names[i]) == names[i]
    ensures Retained(names) == names
  {
    hide Trim;
    if names != [] {
      RetainedKeeps(names[1..]);
    }
  }

  /** The file one edition to a line, as it is written, is read back as the list. */
  lemma RetainedReadsBack(names: seq<string>)
    requires forall i :: 0 <= i < |names| ==> names[i] != "" && Trim(names[i]) == names[i] && '\n' !in names[i]
    ensures Retained(Lines(Unlines(names))) == names
  {
    LinesOfUnlines(names);
    RetainedKeeps(names);
  }

  /** Whatever the file, what is read are its lines without the space around them, empty ones left out. */
  lemma {:induction false} RetainedIff(lines: seq<string>, edition: string)
    ensures edition in Retained(lines) <==> edition != "" && exists i :: 0 <= i < |lines| && Trim(lines[i]) == edition
  {
    hide Trim;
    if lines != [] {
      RetainedIff(lines[1..], edition);
      assert lines == [lines[0]] + lines[1..];
    }
  }

  /** Without a line that opens the array there is nothing to read. */
  lemma {:induction false} NoArrayNoValues(lines: seq<string>, key: string)
    requires forall i :: 0 <= i < |lines| ==> !(Opening(key) <= Trim(lines[i]))
    ensures Scan(lines, key) == []
  {
    hide Trim;
    if lines == [] {
      assert Values("") == Items([""]);
      assert Trim("") == "" by {
        EmptyTrim();
      }
      assert [""][1..] == [];
    } else {
      NoArrayNoValues(lines[1..], key);
    }
  }

  lemma EmptyTrim()
    ensures Trim("") == ""
  {
  }
}
