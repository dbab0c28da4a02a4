/**
 The text codec of the wire protocol: backslash escapes, two layers of splitting, and the
 adapters' encoders and parsers.
 */
module WireCodec {
  datatype Result<T> = Ok(value: T) | BadBody

  // ----- The escape contract -----

  /** Who escapes what: row values on the way in, the server's replies, EXEC arguments. */
  datatype Dialect = RowValue | Reply | ExecArg

  predicate Delimits(d: Dialect, c: char) {
    match d
    case RowValue => c == ','
    case Reply => c == ',' || c == ';'
    case ExecArg => c == ';'
  }

  function EscapeChar(d: Dialect, c: char): string {
    if c == '\r' then ['\\', 'r']
    else if c == '\n' then ['\\', 'n']
    else if c == '\\' || Delimits(d, c) then ['\\', c]
    else [c]
  }

  function Escape(d: Dialect, s: string): string {
    if s == "" then "" else EscapeChar(d, s[0]) + Escape(d, s[1..])
  }

  function Unescaped(c: char): char {
    if c == 'r' then '\r' else if c == 'n' then '\n' else c
  }

  // ----- The encoders: four whole-string replacements -----

  /** `s.replaceAll(c, sub)` for a one-character pattern. */
  function ReplaceAll(s: string, c: char, sub: string): string {
    if s == "" then "" else (if s[0] == c then sub else [s[0]]) + ReplaceAll(s[1..], c, sub)
  }

  function EncodeValue(s: string): string {
    ReplaceAll(ReplaceAll(ReplaceAll(ReplaceAll(s, '\\', "\\\\"), ',', "\\,"), '\r', "\\r"), '\n', "\\n")
  }

  function EncodeExecStr(s: string): string {
    ReplaceAll(ReplaceAll(ReplaceAll(ReplaceAll(s, '\\', "\\\\"), ';', "\\;"), '\r', "\\r"), '\n', "\\n")
  }

  lemma {:induction false} ReplaceAllConcat(a: string, b: string, c: char, sub: string)
    ensures ReplaceAll(a + b, c, sub) == ReplaceAll(a, c, sub) + ReplaceAll(b, c, sub)
  {
    if a == "" {
      assert a + b == b;
    } else {
      assert (a + b)[1..] == a[1..] + b;
      ReplaceAllConcat(a[1..], b, c, sub);
    }
  }

  function FourReplacements(s: string, delimiter: char): string {
    var s1 := ReplaceAll(s, '\\', "\\\\");
    var s2 := ReplaceAll(s1, delimiter, ['\\', delimiter]);
    var s3 := ReplaceAll(s2, '\r', "\\r");
    ReplaceAll(s3, '\n', "\\n")
  }

  lemma ReplaceTwo(x: char, y: char, c: char, sub: string)
    ensures ReplaceAll([x], c, sub) == if x == c then sub else [x]
    ensures ReplaceAll([x, y], c, sub) == (if x == c then sub else [x]) + (if y == c then sub else [y])
  {
    assert [x][1..] == "" && [x, y][1..] == [y] && [y][1..] == "";
  }

  lemma OneCharReplaced(c: char, delimiter: char)
    requires delimiter == ',' || delimiter == ';'
    ensures FourReplacements([c], delimiter) == EscapeChar(if delimiter == ',' then RowValue else ExecArg, c)
  {
    ReplaceTwo(c, c, '\\', "\\\\");
    ReplaceTwo(c, c, delimiter, ['\\', delimiter]);
    ReplaceTwo('\\', '\\', delimiter, ['\\', delimiter]);
    ReplaceTwo(c, c, '\r', "\\r");
    ReplaceTwo('\\', '\\', '\r', "\\r");
    ReplaceTwo('\\', delimiter, '\r', "\\r");
    ReplaceTwo(c, c, '\n', "\\n");
    ReplaceTwo('\\', '\\', '\n', "\\n");
    ReplaceTwo('\\', delimiter, '\n', "\\n");
    ReplaceTwo('\\', 'r', '\n', "\\n");
    assert "\\\\" == ['\\', '\\'] && "\\r" == ['\\', 'r'] && "\\n" == ['\\', 'n'];
  }

  lemma {:induction false} FourReplacementsEscape(s: string, delimiter: char)
    requires delimiter == ',' || delimiter == ';'
    ensures FourReplacements(s, delimiter) == Escape(if delimiter == ',' then RowValue else ExecArg, s)
  {
    if s != "" {
      var head, tail := [s[0]], s[1..];
      assert s == head + tail;
      var sub := ['\\', delimiter];
      ReplaceAllConcat(head, tail, '\\', "\\\\");
      var h1, t1 := ReplaceAll(head, '\\', "\\\\"), ReplaceAll(tail, '\\', "\\\\");
      ReplaceAllConcat(h1, t1, delimiter, sub);
      var h2, t2 := ReplaceAll(h1, delimiter, sub), ReplaceAll(t1, delimiter, sub);
      ReplaceAllConcat(h2, t2, '\r', "\\r");
      ReplaceAllConcat(ReplaceAll(h2, '\r', "\\r"), ReplaceAll(t2, '\r', "\\r"), '\n', "\\n");
      OneCharReplaced(s[0], delimiter);
      FourReplacementsEscape(tail, delimiter);
    }
  }

  /** Replacing the four characters one after the other, backslash first, is escaping each character once. */
  lemma EncodersEscape(s: string)
    ensures EncodeValue(s) == Escape(RowValue, s)
    ensures EncodeExecStr(s) == Escape(ExecArg, s)
  {
    assert "\\," == ['\\', ','] && "\\;" == ['\\', ';'];
    FourReplacementsEscape(s, ',');
    FourReplacementsEscape(s, ';');
  }

  /** The escapes as the protocol lists them; every other character stands for itself. */
  lemma EscapeTable(c: char)
    ensures EncodeValue("\\") == "\\\\" && EncodeValue("\r") == "\\r" && EncodeValue("\n") == "\\n"
    ensures EncodeExecStr("\\") == "\\\\" && EncodeExecStr("\r") == "\\r" && EncodeExecStr("\n") == "\\n"
    ensures EncodeValue(",") == "\\," && EncodeValue(";") == ";"
    ensures EncodeExecStr(";") == "\\;" && EncodeExecStr(",") == ","
    ensures c !in "\\\r\n," ==> EncodeValue([c]) == [c]
    ensures c !in "\\\r\n;" ==> EncodeExecStr([c]) == [c]
    ensures Unescaped('r') == '\r' && Unescaped('n') == '\n' && (c != 'r' && c != 'n' ==> Unescaped(c) == c)
  {
    assert "\\" == ['\\'] && "\\\\" == ['\\', '\\'] && "\\r" == ['\\', 'r'] && "\\n" == ['\\', 'n'];
    assert "\\," == ['\\', ','] && "\\;" == ['\\', ';'];
    OneCharEscaped('\\');
    OneCharEscaped('\r');
    OneCharEscaped('\n');
    OneCharEscaped(',');
    OneCharEscaped(';');
    OneCharEscaped(c);
  }

  lemma OneCharEscaped(c: char)
    ensures EncodeValue([c]) == EscapeChar(RowValue, c) && EncodeExecStr([c]) == EscapeChar(ExecArg, c)
  {
    EncodersEscape([c]);
    assert [c][1..] == "";
    assert Escape(RowValue, [c]) == EscapeChar(RowValue, c) + "" && Escape(ExecArg, [c]) == EscapeChar(ExecArg, c) + "";
  }

  /** What is escaped stays on one line. */
  lemma {:induction false} EscapeHasNoLineBreak(d: Dialect, s: string)
    ensures '\r' !in Escape(d, s) && '\n' !in Escape(d, s)
  {
    if s != "" {
      EscapeHasNoLineBreak(d, s[1..]);
    }
  }

  // ----- Splitting -----

  /** Fields of `s`, the first one already begun as `cur`. */
  function Fields(s: string, cur: string): (r: seq<string>)
    ensures r != []
  {
    if s == "" then [cur]
    else if s[0] == '\\' && |s| > 1 then Fields(s[2..], cur + [Unescaped(s[1])])
    else if s[0] == ',' then [cur] + Fields(s[1..], "")
    else Fields(s[1..], cur + [s[0]])
  }

  /** Rows of `s`, escapes kept for the second layer. */
  function Rows(s: string, cur: string): (r: seq<string>)
    ensures r != []
  {
    if s == "" then [cur]
    else if s[0] == '\\' && |s| > 1 then Rows(s[2..], cur + s[..2])
    else if s[0] == ';' then [cur] + Rows(s[1..], "")
    else Rows(s[1..], cur + [s[0]])
  }

  function Join(parts: seq<string>, sep: char): string {
    if parts == [] then "" else if |parts| == 1 then parts[0] else parts[0] + [sep] + Join(parts[1..], sep)
  }

  function EscapeAll(d: Dialect, fields: seq<string>): seq<string> {
    if fields == [] then [] else [Escape(d, fields[0])] + EscapeAll(d, fields[1..])
  }

  function Print(d: Dialect, fields: seq<string>): string { Join(EscapeAll(d, fields), ',') }

  method SplitWireRow(s: string) returns (out: seq<string>)
    ensures out == Fields(s, "")
  {
    out := [];
    var cur := "";
    var i := 0;
    assert s[0..] == s;
    while i < |s|
      invariant 0 <= i <= |s|
      invariant Fields(s, "") == out + Fields(s[i..], cur)
    {
      var c := s[i];
      var rest := s[i..];
      if c == '\\' && i + 1 < |s| {
        assert rest[2..] == s[i + 2..];
        cur := cur + [Unescaped(s[i + 1])];
        i := i + 1;
      } else if c == ',' {
        assert rest[1..] == s[i + 1..];
        out := out + [cur];
        cur := "";
      } else {
        assert rest[1..] == s[i + 1..];
        cur := cur + [c];
      }
      i := i + 1;
    }
    out := out + [cur];
  }

  method SplitWireRows(s: string) returns (out: seq<string>)
    ensures out == Rows(s, "")
  {
    out := [];
    var cur := "";
    var i := 0;
    assert s[0..] == s;
    while i < |s|
      invariant 0 <= i <= |s|
      invariant Rows(s, "") == out + Rows(s[i..], cur)
    {
      var c := s[i];
      var rest := s[i..];
      if c == '\\' && i + 1 < |s| {
        assert rest[2..] == s[i + 2..] && rest[..2] == [c] + [s[i + 1]];
        ghost var was := cur;
        cur := cur + [c] + [s[i + 1]];
        assert cur == was + rest[..2];
        i := i + 1;
      } else if c == ';' {
        assert rest[1..] == s[i + 1..];
        out := out + [cur];
        cur := "";
      } else {
        assert rest[1..] == s[i + 1..];
        cur := cur + [c];
      }
      i := i + 1;
    }
    out := out + [cur];
  }

  /**
   What the two walks make of the next character: "," ends a cell and ";" a row, a backslash takes the
   next character along - decoded in a cell, kept for the second layer in a row - and a last one stays.
   */
  lemma SplitLaws(c: char, rest: string, cur: string)
    ensures Fields("", cur) == [cur] && Rows("", cur) == [cur]
    ensures Fields("," + rest, cur) == [cur] + Fields(rest, "")
    ensures Rows(";" + rest, cur) == [cur] + Rows(rest, "")
    ensures Fields(['\\', c] + rest, cur) ==
              Fields(rest, cur + [if c == 'n' then '\n' else if c == 'r' then '\r' else c])
    ensures Rows(['\\', c] + rest, cur) == Rows(rest, cur + ['\\', c])
    ensures c != ',' && c != '\\' ==> Fields([c] + rest, cur) == Fields(rest, cur + [c])
    ensures c != ';' && c != '\\' ==> Rows([c] + rest, cur) == Rows(rest, cur + [c])
    ensures Fields("\\", cur) == [cur + "\\"] && Rows("\\", cur) == [cur + "\\"]
  {
    assert ("," + rest)[1..] == rest && (";" + rest)[1..] == rest && ([c] + rest)[1..] == rest;
    assert (['\\', c] + rest)[2..] == rest && (['\\', c] + rest)[..2] == ['\\', c];
    assert "\\"[1..] == "" && "\\" == ['\\'];
  }

  // ----- Round trips -----

  lemma EscapeStep(d: Dialect, f: string)
    requires f != ""
    ensures Escape(d, f) == EscapeChar(d, f[0]) + Escape(d, f[1..])
  {
  }

  /** One escaped character is one character of the field. */
  lemma FieldsOfChar(d: Dialect, c: char, rest: string, cur: string)
    requires d != ExecArg
    ensures Fields(EscapeChar(d, c) + rest, cur) == Fields(rest, cur + [c])
  {
    var e := EscapeChar(d, c);
    var s := e + rest;
    assert s[|e|..] == rest;
  }

  lemma FieldsEdges(rest: string, cur: string)
    ensures Fields("", cur) == [cur]
    ensures Fields([','] + rest, cur) == [cur] + Fields(rest, "")
  {
    assert ([','] + rest)[1..] == rest;
  }

  lemma {:induction false} FieldsOfEscaped(d: Dialect, f: string, rest: string, cur: string)
    requires d != ExecArg
    ensures Fields(Escape(d, f) + rest, cur) == Fields(rest, cur + f)
    decreases f
  {
    hide Fields, EscapeChar;
    if f == "" {
      assert Escape(d, f) + rest == rest && cur + f == cur;
    } else {
      hide Escape;
      EscapeStep(d, f);
      var tail := Escape(d, f[1..]) + rest;
      assert Escape(d, f) + rest == EscapeChar(d, f[0]) + tail;
      FieldsOfChar(d, f[0], tail, cur);
      FieldsOfEscaped(d, f[1..], rest, cur + [f[0]]);
      assert cur + [f[0]] + f[1..] == cur + f;
    }
  }

  lemma JoinStep(first: string, rest: seq<string>, sep: char)
    ensures Join([first] + rest, sep) == first + if rest == [] then "" else [sep] + Join(rest, sep)
  {
    assert ([first] + rest)[1..] == rest;
    assert first + [sep] + Join(rest, sep) == first + ([sep] + Join(rest, sep));
    assert first + "" == first;
  }

  lemma PrintStep(d: Dialect, fields: seq<string>)
    requires fields != []
    ensures Print(d, fields) == Escape(d, fields[0]) + if |fields| == 1 then "" else [','] + Print(d, fields[1..])
  {
    hide Escape, Join;
    JoinStep(Escape(d, fields[0]), EscapeAll(d, fields[1..]), ',');
  }

  /** Splitting a printed row gives the fields back; an INSERT carries exactly as many as were given. */
  lemma {:induction false} RowRoundTrip(d: Dialect, fields: seq<string>)
    requires d != ExecArg && fields != []
    ensures Fields(Print(d, fields), "") == fields
  {
    hide Fields, Print, Escape;
    PrintStep(d, fields);
    assert fields == [fields[0]] + fields[1..] && "" + fields[0] == fields[0];
    if |fields| == 1 {
      FieldsOfEscaped(d, fields[0], "", "");
      FieldsEdges("", fields[0]);
    } else {
      FieldsOfEscaped(d, fields[0], [','] + Print(d, fields[1..]), "");
      FieldsEdges(Print(d, fields[1..]), fields[0]);
      RowRoundTrip(d, fields[1..]);
    }
  }

  lemma {:induction false} PrintHasNoLineBreak(d: Dialect, fields: seq<string>)
    ensures '\r' !in Print(d, fields) && '\n' !in Print(d, fields)
  {
    if fields != [] {
      EscapeHasNoLineBreak(d, fields[0]);
      PrintHasNoLineBreak(d, fields[1..]);
    }
  }

  function EncodeEach(values: seq<string>): seq<string> {
    if values == [] then [] else [EncodeValue(values[0])] + EncodeEach(values[1..])
  }

  lemma {:induction false} EncodeEachEscapes(values: seq<string>)
    ensures EncodeEach(values) == EscapeAll(RowValue, values)
  {
    if values != [] {
      EncodersEscape(values[0]);
      EncodeEachEscapes(values[1..]);
    }
  }

  /** The value list of an INSERT is one line that splits into exactly the values given. */
  lemma InsertRoundTrip(values: seq<string>)
    ensures '\r' !in Join(EncodeEach(values), ',') && '\n' !in Join(EncodeEach(values), ',')
    ensures values != [] ==> Fields(Join(EncodeEach(values), ','), "") == values
  {
    EncodeEachEscapes(values);
    PrintHasNoLineBreak(RowValue, values);
    if values != [] {
      RowRoundTrip(RowValue, values);
    }
  }

  /** A row read with GET, decoded and written again with INSERT arrives as it was stored. */
  lemma CopyRoundTrip(fields: seq<string>)
    requires fields != []
    ensures Fields(Print(RowValue, Fields(Print(Reply, fields), "")), "") == fields
  {
    RowRoundTrip(Reply, fields);
    RowRoundTrip(RowValue, fields);
  }

  lemma {:induction false} RowsOfEscaped(f: string, rest: string, cur: string)
    ensures Rows(Escape(Reply, f) + rest, cur) == Rows(rest, cur + Escape(Reply, f))
    decreases f
  {
    if f == "" {
      assert Escape(Reply, f) + rest == rest && cur + Escape(Reply, f) == cur;
    } else {
      var e := EscapeChar(Reply, f[0]);
      var s := Escape(Reply, f) + rest;
      assert s == e + (Escape(Reply, f[1..]) + rest);
      assert s[|e|..] == Escape(Reply, f[1..]) + rest && s[..|e|] == e;
      assert cur + e + Escape(Reply, f[1..]) == cur + Escape(Reply, f);
      RowsOfEscaped(f[1..], rest, cur + e);
    }
  }

  lemma {:induction false} RowsOfPrinted(fields: seq<string>, rest: string, cur: string)
    requires fields != []
    ensures Rows(Print(Reply, fields) + rest, cur) == Rows(rest, cur + Print(Reply, fields))
    decreases fields
  {
    var first := Escape(Reply, fields[0]);
    if |fields| == 1 {
      assert EscapeAll(Reply, fields) == [first] + EscapeAll(Reply, []) == [first];
      RowsOfEscaped(fields[0], rest, cur);
    } else {
      var tail := Print(Reply, fields[1..]);
      assert EscapeAll(Reply, fields)[1..] == EscapeAll(Reply, fields[1..]);
      assert Print(Reply, fields) == first + ([','] + tail);
      assert Print(Reply, fields) + rest == first + ([','] + tail + rest);
      RowsOfEscaped(fields[0], [','] + tail + rest, cur);
      assert ([','] + tail + rest)[1..] == tail + rest;
      RowsOfPrinted(fields[1..], rest, cur + first + [',']);
      assert cur + first + [','] + tail == cur + Print(Reply, fields);
    }
  }

  function PrintAll(rows: seq<seq<string>>): seq<string> {
    if rows == [] then [] else [Print(Reply, rows[0])] + PrintAll(rows[1..])
  }

  /** The server's `[row;row;...]`. */
  function PrintRowlist(rows: seq<seq<string>>): string { "[" + Join(PrintAll(rows), ';') + "]" }

  lemma PrintAllStep(rows: seq<seq<string>>)
    requires rows != []
    ensures Join(PrintAll(rows), ';') ==
              Print(Reply, rows[0]) + if |rows| == 1 then "" else [';'] + Join(PrintAll(rows[1..]), ';')
    ensures PrintAll(rows) == [Print(Reply, rows[0])] + PrintAll(rows[1..])
  {
    hide Print, Join;
    JoinStep(Print(Reply, rows[0]), PrintAll(rows[1..]), ';');
  }

  lemma RowsEdges(rest: string, cur: string)
    ensures Rows("", cur) == [cur]
    ensures Rows([';'] + rest, cur) == [cur] + Rows(rest, "")
  {
    assert ([';'] + rest)[1..] == rest;
  }

  lemma {:induction false} RowsRoundTrip(rows: seq<seq<string>>)
    requires rows != [] && forall i :: 0 <= i < |rows| ==> rows[i] != []
    ensures Rows(Join(PrintAll(rows), ';'), "") == PrintAll(rows)
  {
    hide Rows, Print, Join;
    PrintAllStep(rows);
    var first := Print(Reply, rows[0]);
    assert "" + first == first;
    if |rows| == 1 {
      assert PrintAll(rows[1..]) == [];
      RowsOfPrinted(rows[0], "", "");
      RowsEdges("", first);
    } else {
      hide PrintAll;
      var rest := Join(PrintAll(rows[1..]), ';');
      RowsOfPrinted(rows[0], [';'] + rest, "");
      RowsEdges(rest, first);
      RowsRoundTrip(rows[1..]);
    }
  }

  function MapFields(rows: seq<string>): seq<seq<string>> {
    if rows == [] then [] else [Fields(rows[0], "")] + MapFields(rows[1..])
  }

  function ParseRowlist(body: string): Result<seq<seq<string>>> {
    if body == "" || body[0] != '[' || body[|body| - 1] != ']' then BadBody
    else if |body| <= 2 then Ok([])
    else Ok(MapFields(Rows(body[1..|body| - 1], "")))
  }

  /** A body is refused exactly if it is not in brackets. */
  lemma BadBodyIff(body: string)
    ensures ParseRowlist(body) == BadBody <==>
              !(body != "" && body[0] == '[' && body[|body| - 1] == ']')
  {
  }

  lemma {:induction false} MapFieldsRoundTrip(rows: seq<seq<string>>)
    requires forall i :: 0 <= i < |rows| ==> rows[i] != []
    ensures MapFields(PrintAll(rows)) == rows
  {
    if rows != [] {
      RowRoundTrip(Reply, rows[0]);
      assert PrintAll(rows)[1..] == PrintAll(rows[1..]);
      MapFieldsRoundTrip(rows[1..]);
      assert rows == [rows[0]] + rows[1..];
    }
  }

  /**
   Two layers of splitting undo the server's printing, for every list of non-empty rows but one:
   a single row of a single empty cell prints like an empty list.
   */
  lemma RowlistRoundTrip(rows: seq<seq<string>>)
    requires forall i :: 0 <= i < |rows| ==> rows[i] != []
    ensures ParseRowlist(PrintRowlist(rows)) == Ok(rows) <==> rows != [[""]]
  {
    var inner := Join(PrintAll(rows), ';');
    var body := PrintRowlist(rows);
    assert body[1..|body| - 1] == inner;
    if rows != [] {
      RowsRoundTrip(rows);
      MapFieldsRoundTrip(rows);
      if inner == "" {
        assert Rows("", "") == [""] && PrintAll(rows) == [""];
        assert MapFields([""]) == [Fields("", "")] + MapFields([]) == [[""]];
      } else {
        assert rows == [[""]] ==> PrintAll(rows) == [Print(Reply, [""])] + PrintAll([]) == [""];
      }
    }
  }

  // ----- The fast path -----

  /** Native `s.split(sep)`. */
  function SplitOn(s: string, sep: char): (r: seq<string>)
    ensures r != []
  {
    if s == "" then [""]
    else if s[0] == sep then [""] + SplitOn(s[1..], sep)
    else
      var rest := SplitOn(s[1..], sep);
      [[s[0]] + rest[0]] + rest[1..]
  }

  function Prefixed(cur: string, pieces: seq<string>): seq<string>
    requires pieces != []
  {
    [cur + pieces[0]] + pieces[1..]
  }

  lemma NothingPrefixed(pieces: seq<string>)
    requires pieces != []
    ensures Prefixed("", pieces) == pieces
  {
    assert "" + pieces[0] == pieces[0];
  }

  lemma {:induction false} PlainFields(s: string, cur: string)
    requires '\\' !in s
    ensures Fields(s, cur) == Prefixed(cur, SplitOn(s, ','))
    decreases s
  {
    if s != "" {
      assert s[0] in s && forall c :: c in s[1..] ==> c in s;
      var rest := SplitOn(s[1..], ',');
      if s[0] == ',' {
        PlainFields(s[1..], "");
        NothingPrefixed(rest);
        assert cur + "" == cur;
      } else {
        PlainFields(s[1..], cur + [s[0]]);
        assert cur + [s[0]] + rest[0] == cur + ([s[0]] + rest[0]);
      }
    } else {
      assert cur + "" == cur;
    }
  }

  lemma {:induction false} PlainRows(s: string, cur: string)
    requires '\\' !in s
    ensures Rows(s, cur) == Prefixed(cur, SplitOn(s, ';'))
    decreases s
  {
    if s != "" {
      assert s[0] in s && forall c :: c in s[1..] ==> c in s;
      var rest := SplitOn(s[1..], ';');
      if s[0] == ';' {
        PlainRows(s[1..], "");
        NothingPrefixed(rest);
        assert cur + "" == cur;
      } else {
        PlainRows(s[1..], cur + [s[0]]);
        assert cur + [s[0]] + rest[0] == cur + ([s[0]] + rest[0]);
      }
    } else {
      assert cur + "" == cur;
    }
  }

  lemma {:induction false} PiecesStayPlain(s: string, sep: char)
    requires '\\' !in s
    ensures forall i :: 0 <= i < |SplitOn(s, sep)| ==> '\\' !in SplitOn(s, sep)[i]
  {
    if s != "" {
      assert s[0] in s && forall c :: c in s[1..] ==> c in s;
      PiecesStayPlain(s[1..], sep);
    }
  }

  function SplitEach(rows: seq<string>): seq<seq<string>> {
    if rows == [] then [] else [SplitOn(rows[0], ',')] + SplitEach(rows[1..])
  }

  lemma {:induction false} SplitEachIsMapFields(rows: seq<string>)
    requires forall i :: 0 <= i < |rows| ==> '\\' !in rows[i]
    ensures SplitEach(rows) == MapFields(rows)
  {
    if rows != [] {
      PlainFields(rows[0], "");
      NothingPrefixed(SplitOn(rows[0], ','));
      SplitEachIsMapFields(rows[1..]);
    }
  }

  /** Without a backslash, splitting natively on ";" and then "," is the escape-aware parse. */
  lemma FastPath(inner: string)
    requires '\\' !in inner
    ensures SplitEach(SplitOn(inner, ';')) == MapFields(Rows(inner, ""))
  {
    PlainRows(inner, "");
    NothingPrefixed(SplitOn(inner, ';'));
    PiecesStayPlain(inner, ';');
    SplitEachIsMapFields(SplitOn(inner, ';'));
  }

  /** The Python parser: native splits where they are exact, the character walk otherwise. */
  method ParseRowlistFast(body: string) returns (r: Result<seq<seq<string>>>)
    ensures r == ParseRowlist(body)
  {
    if body == "" || body[0] != '[' || body[|body| - 1] != ']' {
      return BadBody;
    }
    if |body| <= 2 {
      return Ok([]);
    }
    var inner := body[1..|body| - 1];
    if '\\' !in inner {
      FastPath(inner);
      return Ok(SplitEach(SplitOn(inner, ';')));
    }
    var rows := SplitWireRows(inner);
    var out := [];
    for i := 0 to |rows|
      invariant MapFields(rows) == out + MapFields(rows[i..])
    {
      var fields := SplitWireRow(rows[i]);
      assert rows[i..][1..] == rows[i + 1..];
      out := out + [fields];
    }
    assert rows[|rows|..] == [] && out + [] == out;
    r := Ok(out);
  }

  // ----- EXEC string arguments -----

  function DecodeExecStr(s: string): string {
    if s == "" then ""
    else if s[0] == '\\' && |s| > 1 then [Unescaped(s[1])] + DecodeExecStr(s[2..])
    else [s[0]] + DecodeExecStr(s[1..])
  }

  /** A backslash takes the next character along, decoded; a last one and every other character stay. */
  lemma DecodeLaws(c: char, rest: string)
    ensures DecodeExecStr("") == "" && DecodeExecStr("\\") == "\\"
    ensures DecodeExecStr(['\\', c] + rest) ==
              [if c == 'n' then '\n' else if c == 'r' then '\r' else c] + DecodeExecStr(rest)
    ensures c != '\\' ==> DecodeExecStr([c] + rest) == [c] + DecodeExecStr(rest)
  {
    assert (['\\', c] + rest)[2..] == rest && ([c] + rest)[1..] == rest;
    assert "\\"[1..] == "" && "\\" == ['\\'];
  }

  /** One turn of the decoder: an escape, or one character as it is. */
  lemma DecodeExecStep(s: string, i: nat, out: string)
    requires i < |s|
    ensures if s[i] == '\\' && i + 1 < |s| then
              out + DecodeExecStr(s[i..]) == out + [Unescaped(s[i + 1])] + DecodeExecStr(s[i + 2..])
            else out + DecodeExecStr(s[i..]) == out + [s[i]] + DecodeExecStr(s[i + 1..])
  {
    var rest := s[i..];
    assert rest[1..] == s[i + 1..];
    if |rest| > 1 {
      assert rest[2..] == s[i + 2..];
    }
    hide Unescaped;
  }

  method DecodeExec(s: string) returns (out: string)
    ensures out == DecodeExecStr(s)
  {
    out := "";
    var i := 0;
    assert s[0..] == s && s[|s|..] == "" && DecodeExecStr("") == "";
    hide DecodeExecStr, Unescaped;
    while i < |s|
      invariant 0 <= i <= |s|
      invariant DecodeExecStr(s) == out + DecodeExecStr(s[i..])
    {
      DecodeExecStep(s, i, out);
      if s[i] == '\\' && i + 1 < |s| {
        out := out + [Unescaped(s[i + 1])];
        i := i + 2;
      } else {
        out := out + [s[i]];
        i := i + 1;
      }
    }
    assert out + "" == out;
  }

  lemma {:induction false} ExecRoundTrip(s: string)
    ensures DecodeExecStr(Escape(ExecArg, s)) == s
  {
    if s != "" {
      var e := EscapeChar(ExecArg, s[0]);
      assert Escape(ExecArg, s)[|e|..] == Escape(ExecArg, s[1..]);
      ExecRoundTrip(s[1..]);
    }
  }

  lemma {:induction false} RowsOfExecArg(f: string, rest: string, cur: string)
    ensures Rows(Escape(ExecArg, f) + rest, cur) == Rows(rest, cur + Escape(ExecArg, f))
    decreases f
  {
    if f == "" {
      assert Escape(ExecArg, f) + rest == rest && cur + Escape(ExecArg, f) == cur;
    } else {
      var e := EscapeChar(ExecArg, f[0]);
      var s := Escape(ExecArg, f) + rest;
      assert s == e + (Escape(ExecArg, f[1..]) + rest);
      assert s[|e|..] == Escape(ExecArg, f[1..]) + rest && s[..|e|] == e;
      assert cur + e + Escape(ExecArg, f[1..]) == cur + Escape(ExecArg, f);
      RowsOfExecArg(f[1..], rest, cur + e);
    }
  }

  /** Two encoded arguments around one bare ";" are taken apart there and nowhere else. */
  lemma ExecArgsSplit(a: string, b: string)
    ensures Rows(EncodeExecStr(a) + ";" + EncodeExecStr(b), "") == [EncodeExecStr(a), EncodeExecStr(b)]
    ensures DecodeExecStr(EncodeExecStr(a)) == a
  {
    EncodersEscape(a);
    EncodersEscape(b);
    ExecRoundTrip(a);
    var x, y := Escape(ExecArg, a), Escape(ExecArg, b);
    assert x + ";" + y == x + (";" + y) && (";" + y)[1..] == y;
    RowsOfExecArg(a, ";" + y, "");
    RowsOfExecArg(b, "", "");
    assert y + "" == y && "" + y == y && "" + x == x;
  }
}
