/** The CSV bridge: `toCSV`, the export that strips `id` and `ts`, and `importCSV`,
    which reads a header line and one line per entry and either prepends every
    entry or changes nothing. Each field is written with `JSON.stringify` and read
    with `JSON.parse`. */
module Csv {
  import opened Wrappers
  import opened Strings
  import opened Numeric
  import opened Json
  import opened Rows
  import opened Seqs

  // ---------------------------------------------------------------------------
  // Writing

  /** `JSON.stringify(v ?? "")`: one field of a CSV line. */
  function Cell(v: Value): string {
    Stringify(Coalesce(v))
  }

  /** The fields of `r` under the header keys, in header order. */
  function Cells(r: Row, headers: seq<string>): (cs: seq<string>)
    ensures |cs| == |headers|
    ensures forall j :: 0 <= j < |headers| ==> cs[j] == Cell(Get(r, headers[j]))
    ensures forall j :: 0 <= j < |headers| && (Get(r, headers[j]).Undefined? || Get(r, headers[j]).Null?) ==> cs[j] == "\"\""
    ensures forall j :: 0 <= j < |headers| && !Get(r, headers[j]).Undefined? && !Get(r, headers[j]).Null? ==> cs[j] == Stringify(Get(r, headers[j]))
  {
    seq(|headers|, j requires 0 <= j < |headers| => Cell(Get(r, headers[j])))
  }

  /** The header line followed by one line per row; the header is the first row's
      keys. */
  function CsvLines(rows: seq<Row>): (lines: seq<string>)
    requires rows != []
    ensures |lines| == |rows| + 1
    ensures lines[0] == Join(Keys(rows[0]), ",")
    ensures forall i :: 0 <= i < |rows| ==> lines[i + 1] == Join(Cells(rows[i], Keys(rows[0])), ",")
  {
    var headers := Keys(rows[0]);
    [Join(headers, ",")] + seq(|rows|, i requires 0 <= i < |rows| => Join(Cells(rows[i], headers), ","))
  }

  /** `toCSV(rows)`: the empty text for no rows, otherwise the lines joined by line
      feeds. */
  function ToCsv(rows: seq<Row>): (s: string)
    ensures s == [] <==> rows == []
    ensures rows != [] ==> s == Join(CsvLines(rows), "\n")
  {
    if rows == [] then []
    else
      var lines := CsvLines(rows);
      JoinLong(lines, "\n");
      Join(lines, "\n")
  }

  /** Two or more parts joined keep at least one separator. */
  lemma JoinLong(parts: seq<string>, sep: string)
    requires |parts| >= 2
    ensures |Join(parts, sep)| >= |sep|
  {
  }

  /** `const { id, ts, ...rest } = r`: the entry without its id and timestamp. */
  function Strip(r: Row): (s: Row)
    ensures "id" !in Keys(s) && "ts" !in Keys(s)
  {
    Without(r, {"id", "ts"})
  }

  /** Every entry without its id and timestamp. */
  function Stripped(items: seq<Row>): (rows: seq<Row>)
    ensures |rows| == |items|
    ensures forall i :: 0 <= i < |items| ==> rows[i] == Strip(items[i])
  {
    seq(|items|, i requires 0 <= i < |items| => Strip(items[i]))
  }

  /** The text `exportCSV` puts in the downloaded file. */
  function Export(items: seq<Row>): string {
    ToCsv(Stripped(items))
  }

  // ---------------------------------------------------------------------------
  // Reading

  /** How a data line is cut into fields: `SplitOnComma` is the source's
      `ln.split(",").map(JSON.parse)`; `ReadJson` reads one JSON value after another,
      each followed by a comma or the end of the line, so a comma inside a quoted
      string stays in the string. */
  datatype Reader = SplitOnComma | ReadJson

  /** Every text parsed, or nothing when one of them does not parse. */
  function ParseAll(texts: seq<string>): (r: Option<seq<Value>>)
    ensures r.Some? ==> |r.value| == |texts|
  {
    AllSome(seq(|texts|, i requires 0 <= i < |texts| => Parse(texts[i])))
  }

  /** JSON values separated by commas, with white space allowed around each. */
  function ReadValues(t: string): (r: Option<seq<Value>>)
    ensures r.Some? ==> |r.value| >= 1
    decreases |t|
  {
    match ParseValue(SkipWs(t))
    case None => None
    case Some((v, rest)) =>
      var after := SkipWs(rest);
      if after == [] then Some([v])
      else if after[0] != ',' then None
      else
        match ReadValues(after[1..])
        case None => None
        case Some(vs) => Some([v] + vs)
  }

  /** The values of one data line. */
  function LineValues(reader: Reader, line: string): Option<seq<Value>> {
    match reader
    case SplitOnComma => ParseAll(Split(line, ','))
    case ReadJson => ReadValues(line)
  }

  /** The random id and the clock reading an imported row is given. */
  datatype Stamp = Stamp(id: string, ts: int)

  /** `cols.map((c, i) => [c, vals[i]])`: a missing value is `undefined`. */
  function Pairs(cols: seq<string>, vals: seq<Value>): (ps: seq<Entry>)
    ensures |ps| == |cols|
    ensures forall i :: 0 <= i < |cols| ==> ps[i].0 == cols[i]
    ensures forall i :: 0 <= i < |cols| ==> ps[i].1 == if i < |vals| then vals[i] else Undefined
  {
    seq(|cols|, i requires 0 <= i < |cols| => (cols[i], if i < |vals| then vals[i] else Undefined))
  }

  /** `{ ...Object.fromEntries(pairs), id, ts }`. */
  function Record(cols: seq<string>, vals: seq<Value>, s: Stamp): Row {
    Set(Set(FromEntries(Pairs(cols, vals)), "id", Str(s.id)), "ts", Num(FromInt(s.ts)))
  }

  /** An imported row reads its id and timestamp from the stamp, and every other key
      as the value of the last column with that name, `undefined` when the line is
      too short or there is no such column. */
  lemma RecordSpec(cols: seq<string>, vals: seq<Value>, s: Stamp, k: string)
    ensures Get(Record(cols, vals, s), k)
         == if k == "ts" then Num(FromInt(s.ts))
            else if k == "id" then Str(s.id)
            else Lookup(Pairs(cols, vals), k)
  {
    var base := FromEntries(Pairs(cols, vals));
    GetSet(Set(base, "id", Str(s.id)), "ts", Num(FromInt(s.ts)), k);
    GetSet(base, "id", Str(s.id), k);
    GetFromEntries(Pairs(cols, vals), k);
  }

  /** The values of each data line, in order. */
  function ReadLines(reader: Reader, lines: seq<string>): (parsed: seq<Option<seq<Value>>>)
    ensures |parsed| == |lines|
    ensures forall i :: 0 <= i < |lines| ==> parsed[i] == LineValues(reader, lines[i])
  {
    seq(|lines|, i requires 0 <= i < |lines| => LineValues(reader, lines[i]))
  }

  /** The rows of the lines' values, the row of line `i` stamped with `stamp(i)`. */
  function Records(cols: seq<string>, vals: seq<seq<Value>>, stamp: nat -> Stamp): (rows: seq<Row>)
    ensures |rows| == |vals|
    ensures forall i :: 0 <= i < |vals| ==> rows[i] == Record(cols, vals[i], stamp(i))
  {
    seq(|vals|, i requires 0 <= i < |vals| => Record(cols, vals[i], stamp(i)))
  }

  /** The alert shown when the text cannot be read. */
  const InvalidCsv: string := "Invalid CSV"

  /** `importCSV(text)`: trim the text, split it into lines, take the first line's
      comma-separated names as columns and read every other line; prepend all the
      rows when every line reads, and change nothing otherwise. */
  function ImportCsv(items: seq<Row>, text: string, reader: Reader, stamp: nat -> Stamp): (r: Result<seq<Row>, string>)
    ensures r.Failure? ==> r.error == InvalidCsv
    ensures r.Success? ==> |r.value| >= |items| && r.value[|r.value| - |items|..] == items
  {
    var (header, data) := Sections(text);
    ImportLines(items, header, data, reader, stamp)
  }

  /** `const [header, ...lines] = text.trim().split(/\r?\n/)`. */
  function Sections(text: string): (string, seq<string>) {
    var lines := SplitLines(Trim(text));
    (lines[0], lines[1..])
  }

  /** The import of a header line and the data lines under it. */
  function ImportLines(items: seq<Row>, header: string, data: seq<string>, reader: Reader, stamp: nat -> Stamp): (r: Result<seq<Row>, string>)
    ensures r.Failure? ==> r.error == InvalidCsv
    ensures r.Success? ==> |r.value| >= |items| && r.value[|r.value| - |items|..] == items
  {
    ImportParsed(items, Split(header, ','), ReadLines(reader, data), stamp)
  }

  /** The import once the data lines are read: all the rows in front of the old
      entries, or the alert. */
  function ImportParsed(items: seq<Row>, cols: seq<string>, parsed: seq<Option<seq<Value>>>, stamp: nat -> Stamp): (r: Result<seq<Row>, string>)
    ensures r.Failure? ==> r.error == InvalidCsv
    ensures r.Success? ==> |r.value| >= |items| && r.value[|r.value| - |items|..] == items
  {
    match AllSome(parsed)
    case None => Failure(InvalidCsv)
    case Some(vals) =>
      var rows := Records(cols, vals, stamp);
      assert (rows + items)[|rows|..] == items;
      Success(rows + items)
  }

  /** The import succeeds exactly when every data line reads; then the rows of the
      lines, in file order and stamped in that order, go in front of the old
      entries. */
  lemma ImportSpec(items: seq<Row>, cols: seq<string>, parsed: seq<Option<seq<Value>>>, stamp: nat -> Stamp)
    ensures ImportParsed(items, cols, parsed, stamp).Success? <==> forall i :: 0 <= i < |parsed| ==> parsed[i].Some?
    ensures ImportParsed(items, cols, parsed, stamp).Success? ==>
      var r := ImportParsed(items, cols, parsed, stamp).value;
      && |r| == |parsed| + |items|
      && r[|parsed|..] == items
      && forall i :: 0 <= i < |parsed| ==> parsed[i].Some? && r[i] == Record(cols, parsed[i].value, stamp(i))
  {
    AllSomeSpec(parsed);
  }

  /** A text with no data line, the empty export included, imports nothing. */
  lemma ImportHeaderOnly(items: seq<Row>, text: string, reader: Reader, stamp: nat -> Stamp)
    requires '\n' !in Trim(text)
    ensures ImportCsv(items, text, reader, stamp) == Success(items)
  {
    FindAbsent(Trim(text), '\n');
  }

  // ---------------------------------------------------------------------------
  // Reading back what was written

  /** The values of a row, in key order. */
  function Values(r: Row): (vs: seq<Value>)
    ensures |vs| == |r|
    ensures forall j :: 0 <= j < |r| ==> vs[j] == r[j].1
  {
    seq(|r|, j requires 0 <= j < |r| => r[j].1)
  }

  /** The written fields of a sequence of values. */
  function Fields(vs: seq<Value>): (fs: seq<string>)
    ensures |fs| == |vs|
    ensures forall j :: 0 <= j < |vs| ==> fs[j] == Cell(vs[j])
  {
    seq(|vs|, j requires 0 <= j < |vs| => Cell(vs[j]))
  }

  /** A value that survives being written and read: a number in normal form, a string
      or a boolean (`null` and `undefined` are written as the empty string). */
  predicate Plain(v: Value) {
    Canonical(v) && !v.Null? && !v.Undefined?
  }

  /** The reader gives back the values from the line they were written to. */
  predicate ReadsBack(reader: Reader, vs: seq<Value>) {
    LineValues(reader, Join(Fields(vs), ",")) == Some(vs)
  }

  /** Reading JSON value after value gives back every line of plain values. */
  lemma {:induction false} ReadJsonReadsBack(vs: seq<Value>)
    requires |vs| >= 1
    requires forall j :: 0 <= j < |vs| ==> Plain(vs[j])
    ensures ReadsBack(ReadJson, vs)
    decreases |vs|
  {
    if |vs| == 1 {
      ReadOneField(vs[0]);
      assert vs == [vs[0]];
    } else {
      ReadJsonReadsBack(vs[1..]);
      ReadsBackCons(vs);
    }
  }

  /** A line of values reads back when the line of all but its first value does. */
  lemma ReadsBackCons(vs: seq<Value>)
    requires |vs| >= 2 && Plain(vs[0])
    requires ReadsBack(ReadJson, vs[1..])
    ensures ReadsBack(ReadJson, vs)
  {
    FieldsCons(vs);
    HeadTail(vs);
    ReadCons(vs[0], vs[1..], Join(Fields(vs[1..]), ","), Join(Fields(vs), ","), vs);
  }

  lemma HeadTail(vs: seq<Value>)
    requires |vs| >= 1
    ensures [vs[0]] + vs[1..] == vs
  {
  }

  /** `ReadStep` with the line and the values named. */
  lemma ReadCons(v: Value, tail: seq<Value>, rest: string, line: string, vs: seq<Value>)
    requires Plain(v) && ReadValues(rest) == Some(tail)
    requires line == Stringify(v) + "," + rest && vs == [v] + tail
    ensures ReadValues(line) == Some(vs)
  {
    ReadStep(v, rest, tail);
  }

  lemma ReadOneField(v: Value)
    requires Plain(v)
    ensures ReadsBack(ReadJson, [v])
  {
    assert Join(Fields([v]), ",") == Stringify(v);
    ReadLast(v);
  }

  /** A line of two or more fields is the first field, a comma and the line of the
      others. */
  lemma FieldsCons(vs: seq<Value>)
    requires |vs| >= 2 && Plain(vs[0])
    ensures Join(Fields(vs), ",") == Stringify(vs[0]) + "," + Join(Fields(vs[1..]), ",")
  {
    assert Fields(vs)[1..] == Fields(vs[1..]);
  }

  /** The last value of a line. */
  lemma ReadLast(v: Value)
    requires Plain(v)
    ensures ReadValues(Stringify(v)) == Some([v])
  {
    WrittenStart(v, []);
    assert Stringify(v) + [] == Stringify(v);
    WrittenAlone(v);
    ReadOnly(Stringify(v), v);
  }

  /** A value followed by a comma and the rest of the line. */
  lemma ReadStep(v: Value, rest: string, vs: seq<Value>)
    requires Plain(v)
    requires ReadValues(rest) == Some(vs)
    ensures ReadValues(Stringify(v) + "," + rest) == Some([v] + vs)
  {
    WrittenStartComma(v, rest);
    WrittenBeforeComma(v, rest);
    ReadThen(Stringify(v) + "," + rest, v, rest, vs);
  }

  /** A line that is one value. */
  lemma ReadOnly(t: string, v: Value)
    requires SkipWs(t) == t && ParseValue(t) == Some((v, []))
    ensures ReadValues(t) == Some([v])
  {
  }

  /** A line that is a value, a comma, and a line of values. */
  lemma ReadThen(t: string, v: Value, rest: string, vs: seq<Value>)
    requires SkipWs(t) == t && ParseValue(t) == Some((v, "," + rest))
    requires ReadValues(rest) == Some(vs)
    ensures ReadValues(t) == Some([v] + vs)
  {
    assert SkipWs("," + rest) == "," + rest;
    assert ("," + rest)[1..] == rest;
  }

  /** Splitting at commas gives back a line of plain values when no string among them
      holds a comma. */
  lemma SplitReadsBack(vs: seq<Value>)
    requires |vs| >= 1
    requires forall j :: 0 <= j < |vs| ==> Plain(vs[j]) && !HasComma(vs[j])
    ensures ReadsBack(SplitOnComma, vs)
  {
    var fs := Fields(vs);
    forall j | 0 <= j < |vs|
      ensures ',' !in fs[j] && Parse(fs[j]) == Some(vs[j])
    {
      StringifyComma(vs[j]);
      ParseStringify(vs[j]);
    }
    SplitJoin(fs, ',');
    var ps := seq(|fs|, i requires 0 <= i < |fs| => Parse(fs[i]));
    AllSomeSpec(ps);
    assert AllSome(ps).value == vs;
  }

  /** Splitting at commas cannot read a line in which some string holds a comma: the
      piece that opens that string has no closing quote. */
  lemma SplitBreaks(vs: seq<Value>, i: nat)
    requires i < |vs| && HasComma(vs[i])
    ensures LineValues(SplitOnComma, Join(Fields(vs), ",")) == None
  {
    var j := FirstComma(vs, i);
    var fs := Fields(vs);
    assert fs[j] == Quote(vs[j].s);
    var a, b := QuotedComma(vs[j].s);
    forall k | 0 <= k < j
      ensures ',' !in fs[k]
    {
      CellComma(vs[k]);
    }
    SplitBreaksAt(fs, j, a, b);
  }

  /** A written field holds a comma exactly when the value is a string holding one. */
  lemma CellComma(v: Value)
    ensures ',' in Cell(v) <==> HasComma(v)
  {
    StringifyComma(Coalesce(v));
  }

  /** A written string with a comma in it is an opening piece that does not parse, a
      comma, and the rest. */
  lemma QuotedComma(s: string) returns (a: string, b: string)
    requires ',' in s
    ensures Quote(s) == a + "," + b
    ensures ',' !in a && Parse(a) == None
  {
    var p, q := AtFirstComma(s);
    EscapeAtComma(p, q);
    a, b := "\"" + Escape(p), Escape(q) + "\"";
    Regroup("\"", Escape(p), ",", Escape(q), "\"");
    EscapeComma(p);
    OpenQuoteParse(p);
  }

  /** `s` cut at its first comma. */
  lemma AtFirstComma(s: string) returns (p: string, q: string)
    requires ',' in s
    ensures s == p + "," + q && ',' !in p
  {
    var m := Find(s, ',');
    p, q := s[..m], s[m + 1..];
    assert s == p + "," + q;
  }

  lemma EscapeAtComma(p: string, q: string)
    ensures Escape(p + "," + q) == Escape(p) + "," + Escape(q)
  {
    assert p + "," + q == p + ([','] + q);
    EscapeConcat(p, [','] + q);
    EscapeConcat([','], q);
    assert Escape([',']) == ",";
  }

  /** Concatenation regrouped. */
  lemma Regroup(a: string, b: string, c: string, d: string, e: string)
    ensures a + (b + c + d) + e == (a + b) + c + (d + e)
  {
  }

  /** When the first piece that holds a comma starts with text that does not parse,
      splitting the line at commas cannot read it. */
  lemma SplitBreaksAt(fs: seq<string>, j: nat, a: string, b: string)
    requires j < |fs| && fs[j] == a + "," + b
    requires forall k :: 0 <= k < j ==> ',' !in fs[k]
    requires ',' !in a && Parse(a) == None
    ensures ParseAll(Split(Join(fs, ","), ',')) == None
  {
    var cut := fs[..j] + [a, b] + fs[j + 1..];
    JoinRefine(fs, ",", j, a, b);
    CutKeeps(fs, j, a, b);
    SplitThrough(cut, ',', j);
    ParseAllNone(Split(Join(fs, ","), ','), j);
  }

  lemma CutKeeps(fs: seq<string>, j: nat, a: string, b: string)
    requires j < |fs|
    requires forall k :: 0 <= k < j ==> ',' !in fs[k]
    requires ',' !in a
    ensures var cut := fs[..j] + [a, b] + fs[j + 1..];
      j < |cut| && cut[j] == a && forall k :: 0 <= k <= j ==> ',' !in cut[k]
  {
    var cut := fs[..j] + [a, b] + fs[j + 1..];
    assert forall k :: 0 <= k < j ==> cut[k] == fs[k];
  }

  /** One text that does not parse makes the whole line unreadable. */
  lemma ParseAllNone(texts: seq<string>, j: nat)
    requires j < |texts| && Parse(texts[j]) == None
    ensures ParseAll(texts) == None
  {
    var ps := seq(|texts|, i requires 0 <= i < |texts| => Parse(texts[i]));
    AllSomeSpec(ps);
    assert ps[j] == None;
  }

  /** The first value holding a comma-bearing string, at or before `i`. */
  lemma FirstComma(vs: seq<Value>, i: nat) returns (j: nat)
    requires i < |vs| && HasComma(vs[i])
    ensures j <= i && HasComma(vs[j])
    ensures forall k :: 0 <= k < j ==> !HasComma(vs[k])
  {
    j := 0;
    while !HasComma(vs[j])
      invariant j <= i
      invariant forall k :: 0 <= k < j ==> !HasComma(vs[k])
      decreases i - j
    {
      j := j + 1;
    }
  }

  // ---------------------------------------------------------------------------
  // Export, then import

  /** A header that survives the line split and the comma split: at least one key,
      the first starting with a character `trim` keeps, and no key holding a comma, a
      line feed or a carriage return. */
  predicate HeaderOk(h: seq<string>) {
    && |h| >= 1 && h[0] != [] && !IsSpace(h[0][0])
    && forall k :: 0 <= k < |h| ==> ',' !in h[k] && '\n' !in h[k] && '\r' !in h[k]
  }

  /** Rows `toCSV` writes as a table: every row lists the first row's keys, distinct and
      in the same order. */
  predicate Table(rows: seq<Row>) {
    && rows != []
    && HeaderOk(Keys(rows[0]))
    && forall i :: 0 <= i < |rows| ==> DistinctKeys(rows[i]) && Keys(rows[i]) == Keys(rows[0])
  }

  lemma HeaderLine(h: seq<string>)
    requires HeaderOk(h)
    ensures var l := Join(h, ","); '\n' !in l && '\r' !in l && |l| > 0 && !IsSpace(l[0])
  {
    JoinAvoids(h, ",", '\n');
    JoinAvoids(h, ",", '\r');
    JoinFirst(h, ",");
  }

  /** A written field holds no line break and does not end with white space. */
  lemma CellClean(v: Value)
    ensures '\n' !in Cell(v) && '\r' !in Cell(v)
    ensures |Cell(v)| > 0 && !IsSpace(Cell(v)[|Cell(v)| - 1])
  {
    StringifyVisible(Coalesce(v));
    StringifyEnd(Coalesce(v));
  }

  /** A data line holds no line break, and ends with a character `trim` keeps. */
  lemma DataLine(r: Row, h: seq<string>)
    ensures var l := Join(Cells(r, h), ","); '\n' !in l && '\r' !in l
    ensures |h| >= 1 ==> var l := Join(Cells(r, h), ","); |l| > 0 && !IsSpace(l[|l| - 1])
  {
    var cs := Cells(r, h);
    forall k | 0 <= k < |cs|
      ensures '\n' !in cs[k] && '\r' !in cs[k]
    {
      CellClean(Get(r, h[k]));
    }
    JoinAvoids(cs, ",", '\n');
    JoinAvoids(cs, ",", '\r');
    if |h| >= 1 {
      CellClean(Get(r, h[|h| - 1]));
      JoinLast(cs, ",");
    }
  }

  /** Trimming the written text and splitting it into lines gives back its lines, and
      splitting the first line at commas gives back the header. */
  lemma LinesBack(rows: seq<Row>)
    requires Table(rows)
    ensures SplitLines(Trim(ToCsv(rows))) == CsvLines(rows)
    ensures Split(CsvLines(rows)[0], ',') == Keys(rows[0])
  {
    var lines := CsvLines(rows);
    var h := Keys(rows[0]);
    HeaderLine(h);
    forall k | 0 <= k < |lines|
      ensures '\n' !in lines[k] && '\r' !in lines[k]
    {
      if k > 0 {
        DataLine(rows[k - 1], h);
      }
    }
    DataLine(rows[|rows| - 1], h);
    TrimSplitLines(lines);
    SplitJoin(h, ',');
  }

  /** Reading the text `toCSV` wrote gives the import the header and the data lines. */
  lemma ImportWritten(items: seq<Row>, rows: seq<Row>, reader: Reader, stamp: nat -> Stamp)
    requires Table(rows)
    ensures ImportCsv(items, ToCsv(rows), reader, stamp)
         == ImportParsed(items, Keys(rows[0]), ReadLines(reader, CsvLines(rows)[1..]), stamp)
  {
    LinesBack(rows);
  }

  /** A row with an id and a timestamp appended. */
  function Stamped(r: Row, s: Stamp): Row {
    r + [("id", Str(s.id)), ("ts", Num(FromInt(s.ts)))]
  }

  /** The rows stamped in order. */
  function Restamp(rows: seq<Row>, stamp: nat -> Stamp): (rs: seq<Row>)
    ensures |rs| == |rows|
    ensures forall i :: 0 <= i < |rows| ==> rs[i] == Stamped(rows[i], stamp(i))
  {
    seq(|rows|, i requires 0 <= i < |rows| => Stamped(rows[i], stamp(i)))
  }

  /** A row read back from its own keys and values is the row, with the id and the
      timestamp added at the end. */
  lemma RecordOfRow(r: Row, s: Stamp)
    requires DistinctKeys(r) && "id" !in Keys(r) && "ts" !in Keys(r)
    ensures Record(Keys(r), Values(r), s) == Stamped(r, s)
  {
    assert Pairs(Keys(r), Values(r)) == r;
    FromDistinctEntries(r);
    SetAppends(r, "id", Str(s.id));
    var r1 := r + [("id", Str(s.id))];
    assert Keys(r1) == Keys(r) + ["id"];
    SetAppends(r1, "ts", Num(FromInt(s.ts)));
    assert r1 + [("ts", Num(FromInt(s.ts)))] == Stamped(r, s);
  }

  /** The fields of a row under its own keys are its written values. */
  lemma RowFields(r: Row)
    requires DistinctKeys(r)
    ensures Cells(r, Keys(r)) == Fields(Values(r))
  {
    forall j | 0 <= j < |r|
      ensures Cells(r, Keys(r))[j] == Fields(Values(r))[j]
    {
      GetAt(r, j);
    }
  }

  /** The round trip: when the reader gives back every row's values, importing the
      text `toCSV` wrote puts the same rows, each with its new id and timestamp at
      the end, in front of the old entries. */
  lemma RoundTrip(items: seq<Row>, rows: seq<Row>, reader: Reader, stamp: nat -> Stamp)
    requires Table(rows)
    requires "id" !in Keys(rows[0]) && "ts" !in Keys(rows[0])
    requires forall i :: 0 <= i < |rows| ==> ReadsBack(reader, Values(rows[i]))
    ensures ImportCsv(items, ToCsv(rows), reader, stamp) == Success(Restamp(rows, stamp) + items)
  {
    ImportWritten(items, rows, reader, stamp);
    LinesRead(rows, reader);
    ImportRows(items, rows, ReadLines(reader, CsvLines(rows)[1..]), stamp);
  }

  /** Each data line reads as its row's values. */
  lemma LinesRead(rows: seq<Row>, reader: Reader)
    requires Table(rows)
    requires forall i :: 0 <= i < |rows| ==> ReadsBack(reader, Values(rows[i]))
    ensures var parsed := ReadLines(reader, CsvLines(rows)[1..]);
      |parsed| == |rows| && forall i :: 0 <= i < |rows| ==> parsed[i] == Some(Values(rows[i]))
  {
    forall i | 0 <= i < |rows|
      ensures ReadLines(reader, CsvLines(rows)[1..])[i] == Some(Values(rows[i]))
    {
      RowFields(rows[i]);
    }
  }

  /** Lines read as the rows' own values import as the rows, stamped. */
  lemma ImportRows(items: seq<Row>, rows: seq<Row>, parsed: seq<Option<seq<Value>>>, stamp: nat -> Stamp)
    requires rows != []
    requires "id" !in Keys(rows[0]) && "ts" !in Keys(rows[0])
    requires forall i :: 0 <= i < |rows| ==> DistinctKeys(rows[i]) && Keys(rows[i]) == Keys(rows[0])
    requires |parsed| == |rows| && forall i :: 0 <= i < |rows| ==> parsed[i] == Some(Values(rows[i]))
    ensures ImportParsed(items, Keys(rows[0]), parsed, stamp) == Success(Restamp(rows, stamp) + items)
  {
    var h := Keys(rows[0]);
    ImportSpec(items, h, parsed, stamp);
    var r := ImportParsed(items, h, parsed, stamp).value;
    forall i | 0 <= i < |rows|
      ensures r[i] == Stamped(rows[i], stamp(i))
    {
      RecordOfRow(rows[i], stamp(i));
    }
    assert r == Restamp(rows, stamp) + items;
  }

  /** Entries whose export is a table of plain values. */
  predicate Exportable(log: seq<Row>) {
    && Table(Stripped(log))
    && forall i, j :: 0 <= i < |log| && 0 <= j < |Strip(log[i])| ==> Plain(Strip(log[i])[j].1)
  }

  /** Reading JSON value after value, an exported log imports as the same entries
      without their old ids and timestamps, newly stamped, in front of the old ones. */
  lemma ExportImportJson(items: seq<Row>, log: seq<Row>, stamp: nat -> Stamp)
    requires Exportable(log)
    ensures ImportCsv(items, Export(log), ReadJson, stamp) == Success(Restamp(Stripped(log), stamp) + items)
  {
    var rows := Stripped(log);
    forall i | 0 <= i < |rows|
      ensures ReadsBack(ReadJson, Values(rows[i]))
    {
      ReadJsonReadsBack(Values(rows[i]));
    }
    RoundTrip(items, rows, ReadJson, stamp);
  }

  /** The comma split reads an exported log back as well, as long as no string in it
      holds a comma. */
  lemma ExportImportSplit(items: seq<Row>, log: seq<Row>, stamp: nat -> Stamp)
    requires Exportable(log)
    requires forall i, j :: 0 <= i < |log| && 0 <= j < |Strip(log[i])| ==> !HasComma(Strip(log[i])[j].1)
    ensures ImportCsv(items, Export(log), SplitOnComma, stamp) == Success(Restamp(Stripped(log), stamp) + items)
  {
    var rows := Stripped(log);
    forall i | 0 <= i < |rows|
      ensures ReadsBack(SplitOnComma, Values(rows[i]))
    {
      SplitReadsBack(Values(rows[i]));
    }
    RoundTrip(items, rows, SplitOnComma, stamp);
  }

  /** The comma split refuses a whole exported log as soon as one string in it holds a
      comma: the import alerts and keeps the old entries. */
  lemma ExportSplitBreaks(items: seq<Row>, log: seq<Row>, stamp: nat -> Stamp, i: nat, j: nat)
    requires Table(Stripped(log))
    requires i < |log| && j < |Strip(log[i])| && HasComma(Strip(log[i])[j].1)
    ensures ImportCsv(items, Export(log), SplitOnComma, stamp) == Failure(InvalidCsv)
  {
    var rows := Stripped(log);
    ImportWritten(items, rows, SplitOnComma, stamp);
    var parsed := ReadLines(SplitOnComma, CsvLines(rows)[1..]);
    RowFields(rows[i]);
    SplitBreaks(Values(rows[i]), j);
    assert parsed[i] == None;
    ImportSpec(items, Keys(rows[0]), parsed, stamp);
  }
}
