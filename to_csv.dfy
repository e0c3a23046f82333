/**
 * The scripting function `to_csv(nodes, propertiesOrView[, delimiterChar[,
 * quoteChar[, recordSeparator[, includeHeader[, localizeHeader[,
 * headerLocalizationDomain]]]]]])`: argument handling in `apply`, the row
 * writer `writeCsv`, `appendColumnString` and the field escaper
 * `escapeForCsv`.
 *
 * Values reach the escaper already rendered: a plain object as its
 * `toString()`, a collection as its elements' `toString()`s, a date as the
 * text the date formatter produced. Header localization is a function the
 * caller supplies.
 */
module ToCsv {
  import opened Wrappers
  import Text
  import Search

  // ----- values, records and arguments -----

  /** A property value as `escapeForCsv` distinguishes it. */
  datatype Value =
    | NullValue
    | Plain(text: string)            // any other object, by its toString()
    | Strings(items: seq<Option<string>>)  // a String[], `None` for a null element
    | Objects(texts: seq<string>)    // a Collection, by its elements' toString()
    | Date(formatted: string)        // a java.util.Date, already formatted

  /** A property key of a view: its database name and the node's value. */
  datatype Column = Column(dbName: string, value: Value)

  /** An element of the node list (or of the property-name list): a graph
      object with the keys of each view and its values by JSON name, a map,
      a string, or any other object. */
  datatype Item =
    | Node(views: map<string, seq<Column>>, properties: map<string, Value>)
    | Entries(entries: map<string, Value>)
    | Word(s: string)
    | Opaque

  /** What the columns come from: a view name or a list of property names. */
  datatype Columns = View(name: string) | Named(names: seq<string>)

  /** An argument of the scripting call. */
  datatype Arg = NullArg | ListArg(items: seq<Item>) | Str(s: string) | Flag(b: bool) | OtherArg

  /** The argument errors `apply` answers with a fixed text. */
  datatype Complaint = WrongArguments | FirstNotAList | SecondNotColumns

  /** What `apply` does: return a string (the CSV text, or the text of a
      complaint), or let a `ClassCastException` from a mistyped optional
      argument escape. */
  datatype Reply = Answer(text: string) | Complain(complaint: Complaint) | CastFailure

  const USAGE: string := "Usage: ${to_csv(nodes, propertiesOrView[, delimiterChar[, quoteChar[, recordSeparator[, includeHeader[, localizeHeader[, headerLocalizationDomain]]]])}. Example: ${to_csv(find('Page'), 'ui')}"
  const USAGE_JS: string := "Usage: ${{Structr.to_csv(nodes, propertiesOrView[, delimiterChar[, quoteChar[, recordSeparator[, includeHeader[, localizeHeader[, headerLocalizationDomain]]]])}}. Example: ${{Structr.to_csv(Structr.find('Page'), 'ui'))}}"
  const NOT_A_COLLECTION: string := "ERROR: First parameter must be a collection!"
  const NOT_COLUMNS: string := "ERROR: Second parameter must be a collection of property names or a single property view!"
  const HEADER_NOT_A_NODE: string := "Error: Object is not of type GraphObject, can not determine properties of view for header row"
  const ROW_NOT_A_NODE: string := "Error: Object is not of type GraphObject, can not determine properties of object"

  function Usage(js: bool): string
  {
    if js then USAGE_JS else USAGE
  }

  /** The text `apply` returns for a complaint: the usage, after the error
      line for a bad first or second argument. */
  function ComplaintText(c: Complaint, js: bool): string
  {
    match c
    case WrongArguments => Usage(js)
    case FirstNotAList => NOT_A_COLLECTION + Usage(js)
    case SecondNotColumns => NOT_COLUMNS + Usage(js)
  }

  // ----- escapeForCsv -----

  /** `AbstractCollection.toString()` of a list of strings: `[a, b, c]`. */
  function ListText(parts: seq<string>): string
  {
    "[" + JoinComma(parts) + "]"
  }

  function JoinComma(parts: seq<string>): string
  {
    if parts == [] then ""
    else if |parts| == 1 then parts[0]
    else parts[0] + ", " + JoinComma(parts[1..])
  }

  /** Each string of a `String[]` between backslash-quotes, its quote
      characters preceded by three backslashes. `StringUtils.replace` of a
      null element is null, which the concatenation renders as `null`. */
  function QuoteStrings(items: seq<Option<string>>, q: char): (r: seq<string>)
    ensures |r| == |items|
    ensures forall k :: 0 <= k < |items| && items[k].None? ==> r[k] == ['\\', q] + "null" + ['\\', q]
    ensures forall k :: 0 <= k < |items| && items[k].Some? ==>
      r[k] == ['\\', q] + Text.ReplaceChar(items[k].value, q, ['\\', '\\', '\\', q]) + ['\\', q]
  {
    if items == [] then []
    else
      var text := if items[0].Some? then Text.ReplaceChar(items[0].value, q, ['\\', '\\', '\\', q]) else "null";
      [['\\', q] + text + ['\\', q]] + QuoteStrings(items[1..], q)
  }

  /** Each element of a collection between backslash-quotes. */
  function QuoteObjects(texts: seq<string>, q: char): seq<string>
  {
    if texts == [] then []
    else [['\\', q] + texts[0] + ['\\', q]] + QuoteObjects(texts[1..], q)
  }

  /** The text of a value before line breaks are replaced and the quotes put
      around it. */
  function RawText(v: Value, q: char): string
  {
    match v
    case NullValue => ""
    case Strings(items) => ListText(QuoteStrings(items, q))
    case Objects(texts) => ListText(QuoteObjects(texts, q))
    case Date(formatted) => formatted
    case Plain(text) => Text.ReplaceChar(text, q, ['\\', q])
  }

  /** `escapeForCsv(value, quoteChar)`: the value's text with `\r\n` and
      every remaining `\r` written as the two characters `\n`, between two
      quote characters. */
  function EscapeForCsv(v: Value, q: char): (r: string)
    ensures |r| >= 2 && r[0] == q && r[|r| - 1] == q
    ensures q != '\r' ==> '\r' !in r
  {
    var t := Text.ReplaceAll(RawText(v, q), "\r\n", "\\n");
    Text.ReplaceCharRemoves(t, '\r', "\\n");
    [q] + Text.ReplaceChar(t, '\r', "\\n") + [q]
  }

  /** Reading a field back: the text between the outer quotes with every
      backslash-quote turned into a quote. */
  function ParseField(f: string, q: char): Option<string>
  {
    if |f| >= 2 && f[0] == q && f[|f| - 1] == q then Some(Unbackslash(f[1..|f| - 1], q)) else None
  }

  function Unbackslash(s: string, q: char): string
  {
    if s == [] then []
    else if |s| >= 2 && s[0] == '\\' && s[1] == q then [q] + Unbackslash(s[2..], q)
    else [s[0]] + Unbackslash(s[1..], q)
  }

  /** Prefixing the quote character with a backslash is undone by
      `Unbackslash`, as long as the quote character is not itself a
      backslash. */
  lemma {:induction false} UnbackslashInverse(s: string, q: char)
    requires q != '\\'
    ensures Unbackslash(Text.ReplaceChar(s, q, ['\\', q]), q) == s
  {
    if s != [] {
      var rest := Text.ReplaceChar(s[1..], q, ['\\', q]);
      UnbackslashInverse(s[1..], q);
      if s[0] == q {
        assert (['\\', q] + rest)[2..] == rest;
      } else {
        assert rest == [] || rest[0] != q by {
          if s[1..] != [] {
            assert rest[0] == if s[1] == q then '\\' else s[1];
          }
        }
        assert ([s[0]] + rest)[1..] == rest;
      }
    }
  }

  /** A plain value without carriage returns is read back unchanged from
      its field. */
  lemma FieldRoundTrip(s: string, q: char)
    requires q != '\\' && q != '\r' && '\r' !in s
    ensures ParseField(EscapeForCsv(Plain(s), q), q) == Some(s)
  {
    var escaped := Text.ReplaceChar(s, q, ['\\', q]);
    Text.ReplaceCharKeeps(s, q, ['\\', q], '\r');
    Text.ReplaceAllAbsent(escaped, "\r\n", "\\n");
    Text.ReplaceCharAbsent(escaped, '\r', "\\n");
    var f := EscapeForCsv(Plain(s), q);
    assert f == [q] + escaped + [q];
    assert f[1..|f| - 1] == escaped;
    UnbackslashInverse(s, q);
  }

  /** null is an empty field; a quote inside a value gets a backslash. */
  lemma EscapeNullAndQuote(q: char)
    requires q != '\r'
    ensures EscapeForCsv(NullValue, q) == [q, q]
    ensures EscapeForCsv(Plain([q]), q) == [q, '\\', q, q]
  {
    assert Text.ReplaceChar([q], q, ['\\', q]) == ['\\', q];
    Text.ReplaceAllAbsent(['\\', q], "\r\n", "\\n");
    Text.ReplaceCharAbsent(['\\', q], '\r', "\\n");
  }

  /** `\r\n` becomes the two characters `\n`. */
  lemma EscapeCrLf(q: char)
    requires q != '\r' && q != '\n' && q != '\\' && q != 'n' && q != 'x'
    ensures EscapeForCsv(Plain("x\r\nx"), q) == [q, 'x', '\\', 'n', 'x', q]
  {
    var crlf := "x\r\nx";
    Text.ReplaceCharAbsent(crlf, q, ['\\', q]);
    assert RawText(Plain(crlf), q) == crlf;
    var t1 := crlf[1..];
    assert t1 == "\r\nx" && t1[..2] == "\r\n" && t1[2..] == "x";
    assert Text.ReplaceAll("x", "\r\n", "\\n") == "x";
    assert Text.ReplaceAll(t1, "\r\n", "\\n") == "\\n" + "x";
    assert crlf[..2] != "\r\n" by { assert crlf[..2][0] == 'x'; }
    assert Text.ReplaceAll(crlf, "\r\n", "\\n") == ['x'] + ("\\n" + "x");
    Text.ReplaceCharAbsent("x\\nx", '\r', "\\n");
    assert ['x'] + ("\\n" + "x") == "x\\nx";
  }

  /** A lone `\r` becomes the two characters `\n` as well. */
  lemma EscapeLoneCr(q: char)
    requires q != '\r' && q != '\n' && q != '\\' && q != 'n' && q != 'x'
    ensures EscapeForCsv(Plain("x\rx"), q) == [q, 'x', '\\', 'n', 'x', q]
  {
    var cr := "x\rx";
    Text.ReplaceCharAbsent(cr, q, ['\\', q]);
    assert RawText(Plain(cr), q) == cr;
    var t1 := cr[1..];
    assert t1 == "\rx" && t1[1..] == "x";
    assert t1[..2] != "\r\n" by { assert t1[..2][1] == 'x'; }
    assert Text.ReplaceAll("x", "\r\n", "\\n") == "x";
    assert Text.ReplaceAll(t1, "\r\n", "\\n") == ['\r'] + "x";
    assert cr[..2] != "\r\n" by { assert cr[..2][0] == 'x'; }
    assert Text.ReplaceAll(cr, "\r\n", "\\n") == ['x'] + (['\r'] + "x");
    assert ['x'] + (['\r'] + "x") == cr;
    Text.ReplaceCharAppend("x" + "\r", "x", '\r', "\\n");
    Text.ReplaceCharAppend("x", "\r", '\r', "\\n");
    assert Text.ReplaceChar(cr, '\r', "\\n") == "x\\nx";
  }

  // ----- appendColumnString and one row -----

  /** The escaped fields of `values`, in order. */
  function EscapeAll(values: seq<Value>, q: char): (r: seq<string>)
    ensures |r| == |values|
  {
    if values == [] then []
    else EscapeAll(values[..|values| - 1], q) + [EscapeForCsv(values[|values| - 1], q)]
  }

  lemma {:induction false} EscapeAllAt(values: seq<Value>, q: char, k: nat)
    requires k < |values|
    ensures EscapeAll(values, q)[k] == EscapeForCsv(values[k], q)
    decreases |values|
  {
    if k < |values| - 1 {
      EscapeAllAt(values[..|values| - 1], q, k);
    }
  }

  /** The fields with the delimiter before every field but the first. */
  function Line(fields: seq<string>, d: char): string
  {
    if fields == [] then ""
    else if |fields| == 1 then fields[0]
    else Line(fields[..|fields| - 1], d) + [d] + fields[|fields| - 1]
  }

  /** `appendColumnString`: the delimiter unless this is the first column,
      then the escaped value; the first-column flag is always cleared. */
  method AppendColumnString(row: string, value: Value, isFirstColumn: bool, q: char, d: char)
    returns (newRow: string, stillFirst: bool)
    ensures newRow == row + (if isFirstColumn then "" else [d]) + EscapeForCsv(value, q)
    ensures !stillFirst
  {
    newRow := row;
    if !isFirstColumn {
      newRow := newRow + [d];
    }
    newRow := newRow + EscapeForCsv(value, q);
    return newRow, false;
  }

  /** The column loop of `writeCsv`: a fresh row, one column per value. */
  method WriteColumns(values: seq<Value>, q: char, d: char) returns (row: string)
    ensures row == Line(EscapeAll(values, q), d)
  {
    row := "";
    var isFirstCol := true;
    for j := 0 to |values|
      invariant isFirstCol <==> j == 0
      invariant row == Line(EscapeAll(values[..j], q), d)
    {
      assert values[..j + 1][..j] == values[..j];
      row, isFirstCol := AppendColumnString(row, values[j], isFirstCol, q, d);
    }
    assert values[..|values|] == values;
  }

  /** Splitting at every `d`, as a reader of the row would. */
  function SplitOn(s: string, d: char): (r: seq<string>)
    ensures r != []
    decreases |s|
  {
    if d !in s then [s]
    else
      var i := Search.FirstIndexOf(s, d);
      [s[..i]] + SplitOn(s[i + 1..], d)
  }

  lemma SplitOnAppend(a: string, d: char, b: string)
    requires d !in a
    ensures SplitOn(a + [d] + b, d) == [a] + SplitOn(b, d)
  {
    Search.FirstIndexOfAppend(a, d, b);
    var s := a + [d] + b;
    assert s[..|a|] == a && s[|a| + 1..] == b;
  }

  /** The first field, the delimiter, then the line of the others. */
  lemma {:induction false} LineCons(fields: seq<string>, d: char)
    requires |fields| >= 2
    ensures Line(fields, d) == fields[0] + [d] + Line(fields[1..], d)
    decreases |fields|
  {
    var init := fields[..|fields| - 1];
    assert fields[1..][..|fields[1..]| - 1] == init[1..];
    if |fields| > 2 {
      LineCons(init, d);
    }
  }

  /** A line whose fields hold no delimiter splits back into those fields:
      the delimiter goes before every column except the first and nowhere
      else. */
  lemma {:induction false} LineSplits(fields: seq<string>, d: char)
    requires fields != []
    requires forall k :: 0 <= k < |fields| ==> d !in fields[k]
    ensures SplitOn(Line(fields, d), d) == fields
    decreases |fields|
  {
    if |fields| >= 2 {
      LineCons(fields, d);
      LineSplits(fields[1..], d);
      SplitOnAppend(fields[0], d, Line(fields[1..], d));
    }
  }

  // ----- writeCsv -----

  /** The keys of a view of a node; a view the node does not have has none. */
  function ViewColumns(views: map<string, seq<Column>>, view: string): seq<Column>
  {
    if view in views then views[view] else []
  }

  function DbNames(cols: seq<Column>): (r: seq<string>)
    ensures |r| == |cols|
  {
    if cols == [] then [] else [cols[0].dbName] + DbNames(cols[1..])
  }

  function ValuesOf(cols: seq<Column>): (r: seq<Value>)
    ensures |r| == |cols|
  {
    if cols == [] then [] else [cols[0].value] + ValuesOf(cols[1..])
  }

  /** `map.get(name)` for each name: null where there is no entry. */
  function LookupAll(m: map<string, Value>, names: seq<string>): (r: seq<Value>)
    ensures |r| == |names|
  {
    if names == [] then []
    else [if names[0] in m then m[names[0]] else NullValue] + LookupAll(m, names[1..])
  }

  lemma {:induction false} LookupAllAt(m: map<string, Value>, names: seq<string>, k: nat)
    requires k < |names|
    ensures LookupAll(m, names)[k] == if names[k] in m then m[names[k]] else NullValue
    decreases |names|
  {
    if k > 0 {
      LookupAllAt(m, names[1..], k - 1);
    }
  }

  /** The header labels, localized when asked, as plain values. */
  function Labels(names: seq<string>, localizeHeader: bool, domain: Option<string>,
                  localize: (string, Option<string>) -> string): (r: seq<Value>)
    ensures |r| == |names|
  {
    if names == [] then []
    else
      var heading := if localizeHeader then localize(names[0], domain) else names[0];
      [Plain(heading)] + Labels(names[1..], localizeHeader, domain, localize)
  }

  lemma {:induction false} LabelsAt(names: seq<string>, localizeHeader: bool, domain: Option<string>,
                                    localize: (string, Option<string>) -> string, k: nat)
    requires k < |names|
    ensures Labels(names, localizeHeader, domain, localize)[k]
      == Plain(if localizeHeader then localize(names[k], domain) else names[k])
    decreases |names|
  {
    if k > 0 {
      LabelsAt(names[1..], localizeHeader, domain, localize, k - 1);
    }
  }

  /** The header values, or None when the first object is not a node in
      view mode. */
  function HeaderValues(records: seq<Item>, columns: Columns, localizeHeader: bool, domain: Option<string>,
                        localize: (string, Option<string>) -> string): Option<seq<Value>>
    requires columns.View? ==> records != []
  {
    match columns
    case View(view) =>
      if records[0].Node? then Some(Labels(DbNames(ViewColumns(records[0].views, view)), localizeHeader, domain, localize))
      else None
    case Named(names) => Some(Labels(names, localizeHeader, domain, localize))
  }

  function HeaderRow(records: seq<Item>, columns: Columns, q: char, d: char, localizeHeader: bool,
                     domain: Option<string>, localize: (string, Option<string>) -> string): string
    requires columns.View? ==> records != []
  {
    match HeaderValues(records, columns, localizeHeader, domain, localize)
    case Some(values) => Line(EscapeAll(values, q), d)
    case None => HEADER_NOT_A_NODE
  }

  /** The values of one record, or None when it is not a node in view mode;
      in name mode a record that is neither a node nor a map has no
      columns. */
  function RecordValues(item: Item, columns: Columns): Option<seq<Value>>
  {
    match columns
    case View(view) =>
      if item.Node? then Some(ValuesOf(ViewColumns(item.views, view))) else None
    case Named(names) =>
      match item
      case Node(_, properties) => Some(LookupAll(properties, names))
      case Entries(entries) => Some(LookupAll(entries, names))
      case _ => Some([])
  }

  function RecordRow(item: Item, columns: Columns, q: char, d: char): string
  {
    match RecordValues(item, columns)
    case Some(values) => Line(EscapeAll(values, q), d)
    case None => ROW_NOT_A_NODE
  }

  /** A record row with its raw `\n` and `\r` written as `\n` and `\r`. */
  function Body(row: string): string
  {
    Text.ReplaceChar(Text.ReplaceChar(row, '\n', "\\n"), '\r', "\\r")
  }

  /** The row text of each record, in order. */
  function RecordRows(records: seq<Item>, columns: Columns, q: char, d: char): (r: seq<string>)
    ensures |r| == |records|
  {
    seq(|records|, k requires 0 <= k < |records| => RecordRow(records[k], columns, q, d))
  }

  /** Each row with its line breaks replaced. */
  function Bodies(rows: seq<string>): (r: seq<string>)
    ensures |r| == |rows|
  {
    if rows == [] then [] else Bodies(rows[..|rows| - 1]) + [Body(rows[|rows| - 1])]
  }

  lemma {:induction false} BodyAt(rows: seq<string>, k: nat)
    requires k < |rows|
    ensures Bodies(rows)[k] == Body(rows[k])
    decreases |rows|
  {
    var n := |rows|;
    if k < n - 1 {
      BodyAt(rows[..n - 1], k);
    }
  }

  /** Each line followed by the record separator. */
  function Terminated(lines: seq<string>, rs: string): string
  {
    if lines == [] then ""
    else Terminated(lines[..|lines| - 1], rs) + lines[|lines| - 1] + rs
  }

  /** The data part of the output. */
  function Rows(records: seq<Item>, columns: Columns, q: char, d: char, rs: string): string
  {
    Terminated(Bodies(RecordRows(records, columns, q, d)), rs)
  }

  /** Everything `writeCsv` appends to the writer. */
  function CsvText(records: seq<Item>, columns: Columns, q: char, d: char, rs: string, includeHeader: bool,
                   localizeHeader: bool, domain: Option<string>, localize: (string, Option<string>) -> string): string
    requires includeHeader && columns.View? ==> records != []
  {
    (if includeHeader then HeaderRow(records, columns, q, d, localizeHeader, domain, localize) + rs else "")
      + Rows(records, columns, q, d, rs)
  }

  /** One more record adds its body and the separator. */
  lemma RowsStep(records: seq<Item>, columns: Columns, q: char, d: char, rs: string, i: nat, row: string)
    requires i < |records| && row == RecordRow(records[i], columns, q, d)
    ensures Rows(records[..i + 1], columns, q, d, rs) == Rows(records[..i], columns, q, d, rs) + (Body(row) + rs)
  {
    var rows := RecordRows(records[..i], columns, q, d);
    RecordRowsStep(records, columns, q, d, i);
    var bodies := Bodies(rows);
    BodiesStep(rows, row);
    TerminatedStep(bodies, Body(row), rs);
  }

  lemma RecordRowsStep(records: seq<Item>, columns: Columns, q: char, d: char, i: nat)
    requires i < |records|
    ensures RecordRows(records[..i + 1], columns, q, d)
      == RecordRows(records[..i], columns, q, d) + [RecordRow(records[i], columns, q, d)]
  {
    var a := RecordRows(records[..i + 1], columns, q, d);
    var b := RecordRows(records[..i], columns, q, d) + [RecordRow(records[i], columns, q, d)];
    assert |a| == |b|;
    forall k | 0 <= k < |a|
      ensures a[k] == b[k]
    {
      assert records[..i + 1][k] == records[k];
    }
  }

  lemma BodiesStep(rows: seq<string>, row: string)
    ensures Bodies(rows + [row]) == Bodies(rows) + [Body(row)]
  {
    assert (rows + [row])[..|rows|] == rows;
  }

  lemma TerminatedStep(lines: seq<string>, line: string, rs: string)
    ensures Terminated(lines + [line], rs) == Terminated(lines, rs) + (line + rs)
  {
    assert (lines + [line])[..|lines|] == lines;
    Associative(Terminated(lines, rs), line, rs);
  }

  lemma Associative(a: string, b: string, c: string)
    ensures a + b + c == a + (b + c)
  {
  }

  /** The header part of `writeCsv`: the labels of the view's keys on the
      first record, or of the named properties. */
  method WriteHeader(records: seq<Item>, columns: Columns, q: char, d: char, localizeHeader: bool,
                     domain: Option<string>, localize: (string, Option<string>) -> string)
    returns (row: string)
    requires columns.View? ==> records != []
    ensures row == HeaderRow(records, columns, q, d, localizeHeader, domain, localize)
  {
    var header := HeaderValues(records, columns, localizeHeader, domain, localize);
    if header.Some? {
      row := WriteColumns(header.value, q, d);
    } else {
      row := HEADER_NOT_A_NODE;
    }
  }

  /** The row of one record, before its line breaks are replaced. */
  method WriteRecord(item: Item, columns: Columns, q: char, d: char) returns (row: string)
    ensures row == RecordRow(item, columns, q, d)
  {
    var values := RecordValues(item, columns);
    if values.Some? {
      row := WriteColumns(values.value, q, d);
    } else {
      row := ROW_NOT_A_NODE;
    }
  }

  /** `writeCsv`: the header row unless switched off, then one row per
      record; the row buffer is rebuilt for every row. The header row of a
      view is taken from the first record, which must exist. */
  method WriteCsv(records: seq<Item>, columns: Columns, q: char, d: char, rs: string, includeHeader: bool,
                  localizeHeader: bool, domain: Option<string>, localize: (string, Option<string>) -> string)
    returns (out: string)
    requires includeHeader && columns.View? ==> records != []
    ensures out == CsvText(records, columns, q, d, rs, includeHeader, localizeHeader, domain, localize)
  {
    out := "";
    if includeHeader {
      var row := WriteHeader(records, columns, q, d, localizeHeader, domain, localize);
      out := row + rs;
    }
    ghost var head := out;
    for i := 0 to |records|
      invariant out == head + Rows(records[..i], columns, q, d, rs)
    {
      var row := WriteRecord(records[i], columns, q, d);
      RowsStep(records, columns, q, d, rs, i, row);
      Associative(head, Rows(records[..i], columns, q, d, rs), Body(row) + rs);
      out := out + (Body(row) + rs);
    }
    assert records[..|records|] == records;
  }

  // ----- what the writer promises -----

  /** A record body holds no raw line break, and no other character is lost
      or added besides the backslash and the letters of the replacements. */
  lemma BodyHasNoBreaks(row: string, c: char)
    ensures '\n' !in Body(row) && '\r' !in Body(row)
    ensures c !in "\n\r\\nr" ==> (c in Body(row) <==> c in row)
  {
    var once := Text.ReplaceChar(row, '\n', "\\n");
    Text.ReplaceCharRemoves(row, '\n', "\\n");
    Text.ReplaceCharRemoves(once, '\r', "\\r");
    Text.ReplaceCharKeeps(once, '\r', "\\r", '\n');
    if c !in "\n\r\\nr" {
      Text.ReplaceCharKeeps(row, '\n', "\\n", c);
      Text.ReplaceCharKeeps(once, '\r', "\\r", c);
    }
  }

  /** The terminated lines, front first. */
  lemma {:induction false} TerminatedCons(lines: seq<string>, rs: string)
    requires lines != []
    ensures Terminated(lines, rs) == lines[0] + rs + Terminated(lines[1..], rs)
    decreases |lines|
  {
    var n := |lines|;
    if n > 1 {
      var init := lines[..n - 1];
      var tail := lines[1..];
      TerminatedCons(init, rs);
      assert init[0] == lines[0];
      assert tail[..n - 2] == init[1..] && tail[n - 2] == lines[n - 1];
      var rest := Terminated(init[1..], rs);
      calc {
        Terminated(lines, rs);
        Terminated(init, rs) + lines[n - 1] + rs;
        lines[0] + rs + rest + lines[n - 1] + rs;
        lines[0] + rs + (rest + lines[n - 1] + rs);
        lines[0] + rs + Terminated(tail, rs);
      }
    } else {
      assert lines[..0] == [] && lines[1..] == [];
    }
  }

  /** Lines without a line break, each terminated by one, split back into
      those lines and the empty text after the last break. */
  lemma {:induction false} TerminatedSplits(lines: seq<string>)
    requires forall k :: 0 <= k < |lines| ==> '\n' !in lines[k]
    ensures SplitOn(Terminated(lines, "\n"), '\n') == lines + [""]
    decreases |lines|
  {
    if lines != [] {
      var rest := Terminated(lines[1..], "\n");
      TerminatedCons(lines, "\n");
      assert Terminated(lines, "\n") == lines[0] + ['\n'] + rest;
      SplitOnAppend(lines[0], '\n', rest);
      TerminatedSplits(lines[1..]);
      assert lines == [lines[0]] + lines[1..];
    }
  }

  /** With the default record separator every record is exactly one line of
      the output: splitting at line breaks gives the record bodies in order,
      then the empty text after the last separator. */
  lemma OneLinePerRecord(records: seq<Item>, columns: Columns, q: char, d: char)
    ensures var lines := SplitOn(Rows(records, columns, q, d, "\n"), '\n');
      && |lines| == |records| + 1
      && (forall k :: 0 <= k < |records| ==> lines[k] == Body(RecordRow(records[k], columns, q, d)))
      && lines[|records|] == ""
  {
    var bodies := Bodies(RecordRows(records, columns, q, d));
    forall k | 0 <= k < |bodies|
      ensures bodies[k] == Body(RecordRow(records[k], columns, q, d)) && '\n' !in bodies[k]
    {
      BodyAt(RecordRows(records, columns, q, d), k);
      BodyHasNoBreaks(RecordRow(records[k], columns, q, d), 'a');
    }
    TerminatedSplits(bodies);
  }

  /** In name mode a map record has one column per name, holding the map's
      value and an empty quoted field for a missing key. */
  lemma MapRecordColumns(m: map<string, Value>, names: seq<string>, q: char)
    ensures var values := RecordValues(Entries(m), Named(names));
      && values.Some? && |values.value| == |names|
      && forall k :: 0 <= k < |names| ==>
           ((names[k] in m ==> values.value[k] == m[names[k]])
            && (names[k] !in m ==> EscapeAll(values.value, q)[k] == [q, q]))
  {
    var values := LookupAll(m, names);
    forall k | 0 <= k < |names|
      ensures (names[k] in m ==> values[k] == m[names[k]])
        && (names[k] !in m ==> EscapeAll(values, q)[k] == [q, q])
    {
      LookupAllAt(m, names, k);
      EscapeAllAt(values, q, k);
      assert EscapeForCsv(NullValue, q) == [q, q];
    }
  }

  /** With a list of property names and no localization, the header row
      splits at the delimiter into fields that read back as the names, in
      list order. */
  lemma HeaderReadsBack(records: seq<Item>, names: seq<string>, q: char, d: char,
                        domain: Option<string>, localize: (string, Option<string>) -> string)
    requires names != []
    requires q != '\\' && q != '\r' && d != q && d != '\\'
    requires forall k :: 0 <= k < |names| ==> '\r' !in names[k] && d !in names[k]
    ensures var cells := SplitOn(HeaderRow(records, Named(names), q, d, false, domain, localize), d);
      && |cells| == |names|
      && forall k :: 0 <= k < |names| ==> ParseField(cells[k], q) == Some(names[k])
  {
    var values := Labels(names, false, domain, localize);
    var fields := EscapeAll(values, q);
    forall k | 0 <= k < |names|
      ensures d !in fields[k] && ParseField(fields[k], q) == Some(names[k])
    {
      var s := names[k];
      LabelsAt(names, false, domain, localize, k);
      EscapeAllAt(values, q, k);
      var escaped := Text.ReplaceChar(s, q, ['\\', q]);
      Text.ReplaceCharKeeps(s, q, ['\\', q], '\r');
      Text.ReplaceCharKeeps(s, q, ['\\', q], d);
      Text.ReplaceAllAbsent(escaped, "\r\n", "\\n");
      Text.ReplaceCharAbsent(escaped, '\r', "\\n");
      assert fields[k] == [q] + escaped + [q];
      FieldRoundTrip(s, q);
    }
    LineSplits(fields, d);
  }

  // ----- apply -----

  /** The settings after the fall-through switch; None when one of the
      optional arguments has the wrong type. */
  datatype Settings = Settings(delimiter: string, quote: string, recordSeparator: string,
                               includeHeader: bool, localizeHeader: bool, domain: Option<string>)

  const DEFAULTS: Settings := Settings(";", "\"", "\n", true, false, None)

  /** Positions 2 to 7 override the defaults from the last given one down,
      each cast to its type. */
  function ReadSettings(args: seq<Arg>): Option<Settings>
    requires 2 <= |args| <= 8
  {
    if |args| >= 8 && !args[7].Str? then None
    else if |args| >= 7 && !args[6].Flag? then None
    else if |args| >= 6 && !args[5].Flag? then None
    else if |args| >= 5 && !args[4].Str? then None
    else if |args| >= 4 && !args[3].Str? then None
    else if |args| >= 3 && !args[2].Str? then None
    else Some(Settings(
      if |args| >= 3 then args[2].s else DEFAULTS.delimiter,
      if |args| >= 4 then args[3].s else DEFAULTS.quote,
      if |args| >= 5 then args[4].s else DEFAULTS.recordSeparator,
      if |args| >= 6 then args[5].b else DEFAULTS.includeHeader,
      if |args| >= 7 then args[6].b else DEFAULTS.localizeHeader,
      if |args| >= 8 then Some(args[7].s) else DEFAULTS.domain))
  }

  /** The property names, when every entry of the list is a string. */
  function Words(items: seq<Item>): (r: Option<seq<string>>)
    ensures r.Some? <==> forall k :: 0 <= k < |items| ==> items[k].Word?
    ensures r.Some? ==> |r.value| == |items| && forall k :: 0 <= k < |items| ==> r.value[k] == items[k].s
  {
    if items == [] then Some([])
    else if !items[0].Word? then None
    else match Words(items[1..])
      case Some(rest) => Some([items[0].s] + rest)
      case None => None
  }

  /** Whether writing the rows reads the property names, which is where a
      non-string entry fails its cast. */
  predicate ReadsNames(records: seq<Item>, includeHeader: bool)
  {
    includeHeader || exists k :: 0 <= k < |records| && (records[k].Node? || records[k].Entries?)
  }

  /** Between two and eight arguments, none of them null. */
  predicate ValidCount(args: seq<Arg>)
  {
    2 <= |args| <= 8 && forall k :: 0 <= k < |args| ==> !args[k].NullArg?
  }

  /** Position `k` holds an optional argument of the wrong type: the two
      flags are Booleans, the others strings. */
  predicate Mistyped(args: seq<Arg>, k: int)
  {
    2 <= k < |args| && if k == 5 || k == 6 then !args[k].Flag? else !args[k].Str?
  }

  /** What the writer is asked to do. */
  datatype Job = Job(records: seq<Item>, columns: Columns, q: char, d: char, rs: string,
                     includeHeader: bool, localizeHeader: bool, domain: Option<string>)

  /** `apply` either answers before writing or hands a job to the writer. */
  datatype Decision = Done(reply: Reply) | Run(job: Job)

  /** The argument handling of `apply`. Exceptions inside the writer's try
      block (an empty delimiter or quote text, a property name that is not
      a string) are caught there and give the empty text. */
  function Decide(args: seq<Arg>): (r: Decision)
    ensures r.Run? ==> (r.job.includeHeader && r.job.columns.View? ==> r.job.records != [])
  {
    if !ValidCount(args) then Done(Complain(WrongArguments))
    else if !args[0].ListArg? then Done(Complain(FirstNotAList))
    else if args[0].items == [] then Done(Answer(""))
    else match ReadSettings(args)
      case None => Done(CastFailure)
      case Some(st) =>
        var nodes := args[0].items;
        match args[1]
        case Str(view) =>
          if st.quote == "" || st.delimiter == "" then Done(Answer(""))
          else Run(Job(nodes, View(view), st.quote[0], st.delimiter[0], st.recordSeparator,
                       st.includeHeader, st.localizeHeader, st.domain))
        case ListArg(items) =>
          if items == [] then Done(Answer(""))
          else if st.quote == "" || st.delimiter == "" then Done(Answer(""))
          else
            var names := Words(items);
            if names.None? && ReadsNames(nodes, st.includeHeader) then Done(Answer(""))
            else Run(Job(nodes, Named(if names.Some? then names.value else []), st.quote[0],
                         st.delimiter[0], st.recordSeparator, st.includeHeader, st.localizeHeader, st.domain))
        case _ => Done(Complain(SecondNotColumns))
  }

  /** The result of `to_csv(args...)`. */
  function ToCsvOf(args: seq<Arg>, localize: (string, Option<string>) -> string): Reply
  {
    match Decide(args)
    case Done(reply) => reply
    case Run(job) =>
      Answer(CsvText(job.records, job.columns, job.q, job.d, job.rs, job.includeHeader, job.localizeHeader,
                     job.domain, localize))
  }

  /** `apply`: the argument checks, the fall-through switch over the number
      of arguments, then the writer. */
  method Apply(args: seq<Arg>, localize: (string, Option<string>) -> string) returns (r: Reply)
    ensures r == ToCsvOf(args, localize)
  {
    if !ValidCount(args) {
      return Complain(WrongArguments);
    }
    if !args[0].ListArg? {
      return Complain(FirstNotAList);
    }
    var nodes := args[0].items;
    var delimiterChar := DEFAULTS.delimiter;
    var quoteChar := DEFAULTS.quote;
    var recordSeparator := DEFAULTS.recordSeparator;
    var includeHeader := DEFAULTS.includeHeader;
    var localizeHeader := DEFAULTS.localizeHeader;
    var domain := DEFAULTS.domain;
    if |nodes| == 0 {
      return Answer("");
    }
    if |args| >= 8 {
      if !args[7].Str? { return CastFailure; }
      domain := Some(args[7].s);
    }
    if |args| >= 7 {
      if !args[6].Flag? { return CastFailure; }
      localizeHeader := args[6].b;
    }
    if |args| >= 6 {
      if !args[5].Flag? { return CastFailure; }
      includeHeader := args[5].b;
    }
    if |args| >= 5 {
      if !args[4].Str? { return CastFailure; }
      recordSeparator := args[4].s;
    }
    if |args| >= 4 {
      if !args[3].Str? { return CastFailure; }
      quoteChar := args[3].s;
    }
    if |args| >= 3 {
      if !args[2].Str? { return CastFailure; }
      delimiterChar := args[2].s;
    }
    assert ReadSettings(args) == Some(Settings(delimiterChar, quoteChar, recordSeparator, includeHeader,
                                               localizeHeader, domain));
    var columns: Columns;
    match args[1] {
      case Str(view) =>
        columns := View(view);
      case ListArg(items) =>
        if |items| == 0 {
          return Answer("");
        }
        var names := Words(items);
        if |quoteChar| == 0 || |delimiterChar| == 0 {
          return Answer("");
        }
        if names.None? && ReadsNames(nodes, includeHeader) {
          return Answer("");
        }
        columns := Named(if names.Some? then names.value else []);
      case _ =>
        return Complain(SecondNotColumns);
    }
    if |quoteChar| == 0 || |delimiterChar| == 0 {
      return Answer("");
    }
    assert Decide(args) == Run(Job(nodes, columns, quoteChar[0], delimiterChar[0], recordSeparator,
                                   includeHeader, localizeHeader, domain));
    var text := WriteCsv(nodes, columns, quoteChar[0], delimiterChar[0], recordSeparator, includeHeader,
                         localizeHeader, domain, localize);
    return Answer(text);
  }

  // ----- what apply promises -----

  /** The optional arguments fail their casts exactly when one of them has
      the wrong type. */
  lemma ReadSettingsFails(args: seq<Arg>)
    requires 2 <= |args| <= 8
    ensures ReadSettings(args).None? <==> exists k :: Mistyped(args, k)
  {
    if ReadSettings(args).None? {
      var k :| k in {7, 6, 5, 4, 3, 2} && k < |args| && Mistyped(args, k) by {
        if |args| >= 8 && !args[7].Str? { assert Mistyped(args, 7); }
        else if |args| >= 7 && !args[6].Flag? { assert Mistyped(args, 6); }
        else if |args| >= 6 && !args[5].Flag? { assert Mistyped(args, 5); }
        else if |args| >= 5 && !args[4].Str? { assert Mistyped(args, 4); }
        else if |args| >= 4 && !args[3].Str? { assert Mistyped(args, 3); }
        else { assert Mistyped(args, 2); }
      }
    }
  }

  /** Too few or too many arguments, or a null among them, give the usage
      text; a first argument that is not a list gives the error text and the
      usage; an empty node list gives the empty text; a class-cast failure
      escapes exactly when an optional argument has the wrong type. */
  lemma ApplyRejects(args: seq<Arg>)
    ensures !ValidCount(args) ==> Decide(args) == Done(Complain(WrongArguments))
    ensures ValidCount(args) && !args[0].ListArg? ==> Decide(args) == Done(Complain(FirstNotAList))
    ensures ValidCount(args) && args[0] == ListArg([]) ==> Decide(args) == Done(Answer(""))
    ensures ValidCount(args) && args[0].ListArg? && args[0].items != [] ==>
      (Decide(args) == Done(CastFailure) <==> exists k :: Mistyped(args, k))
  {
    if ValidCount(args) {
      ReadSettingsFails(args);
    }
  }

  /** With two arguments the defaults apply: `;` between fields, `"` around
      them, a line break after each row, and a header row. */
  lemma ApplyDefaults(nodes: seq<Item>, view: string, names: seq<string>)
    requires nodes != [] && names != []
    ensures Decide([ListArg(nodes), Str(view)]) == Run(Job(nodes, View(view), '"', ';', "\n", true, false, None))
    ensures Decide([ListArg(nodes), ListArg(WordsOf(names))])
      == Run(Job(nodes, Named(names), '"', ';', "\n", true, false, None))
  {
    var items := WordsOf(names);
    var w := Words(items);
    assert w.Some?;
    assert forall k :: 0 <= k < |names| ==> w.value[k] == names[k];
    assert w.value == names;
  }

  /** The names as a scripting list of strings. */
  function WordsOf(names: seq<string>): (r: seq<Item>)
    ensures |r| == |names| && forall k :: 0 <= k < |names| ==> r[k] == Word(names[k])
  {
    if names == [] then [] else [Word(names[0])] + WordsOf(names[1..])
  }

  /** Every optional argument given overrides its default; only the first
      character of the delimiter and quote texts is used, and an empty one
      gives the empty result. */
  lemma ApplyOverrides(nodes: seq<Item>, view: string, delimiter: string, quote: string, rs: string,
                       header: bool, localizeHeader: bool, domain: string)
    requires nodes != []
    ensures var r := Decide([ListArg(nodes), Str(view), Str(delimiter), Str(quote), Str(rs), Flag(header),
                             Flag(localizeHeader), Str(domain)]);
      if delimiter == "" || quote == "" then r == Done(Answer(""))
      else r == Run(Job(nodes, View(view), quote[0], delimiter[0], rs, header, localizeHeader, Some(domain)))
  {
  }

  /** A second argument that is neither a view name nor a list gives the
      error text; an empty list of names gives the empty text; a list with a
      non-string entry gives the empty text whenever the writer reads the
      names. */
  lemma ApplyColumnsArgument(nodes: seq<Item>, second: Arg, items: seq<Item>)
    requires nodes != []
    requires !second.NullArg? && !second.Str? && !second.ListArg?
    requires exists k :: 0 <= k < |items| && !items[k].Word?
    ensures Decide([ListArg(nodes), second]) == Done(Complain(SecondNotColumns))
    ensures Decide([ListArg(nodes), ListArg([])]) == Done(Answer(""))
    ensures Decide([ListArg(nodes), ListArg(items)]) == Done(Answer(""))
  {
  }
}
