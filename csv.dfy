/** The CSV text an upload delivers, turned into rows: split into lines at
    '\n', each line into fields at ',', the first line naming the columns;
    a later line becomes a row only when it has exactly as many fields as
    there are column names. There is no quoting: a ',' is always a field
    boundary. */
module Csv {
  import opened Types
  import opened Text
  import Seqs

  /** `csv.split('\n').map(row => row.split(','))`. */
  function Lines(csv: string): (r: seq<seq<string>>)
    ensures |r| == |Split(csv, '\n')| >= 1
    ensures forall i :: 0 <= i < |r| ==> r[i] == Split(Split(csv, '\n')[i], ',')
  {
    var lines := Split(csv, '\n');
    seq(|lines|, i requires 0 <= i < |lines| => Split(lines[i], ','))
  }

  /** `rows[0]`: the column names, untrimmed. */
  function Headers(csv: string): seq<string>
  {
    Lines(csv)[0]
  }

  /** The test `row => row.length === headers.length`. */
  function HasWidth(n: nat): seq<string> -> bool
  {
    (fields: seq<string>) => |fields| == n
  }

  /** `rows.slice(1).filter(...)`: the lines after the first with as many
      fields as there are column names. */
  function DataLines(csv: string): (r: seq<seq<string>>)
    ensures |r| <= |Lines(csv)| - 1
    ensures forall line :: line in r ==> line in Lines(csv)[1..] && |line| == |Headers(csv)|
  {
    Seqs.Filter(Lines(csv)[1..], HasWidth(|Headers(csv)|))
  }

  /** `row[index]?.trim() || ''`: the trimmed field, or the empty string
      when the line has no field at that index. */
  function FieldValue(fields: seq<string>, index: nat): string
  {
    if index < |fields| then Trim(fields[index]) else ""
  }

  /** The object `headers.forEach` fills for one line: each trimmed column
      name in turn is set to its field, so that of two columns with the same
      trimmed name the later one wins. */
  function RowOf(headers: seq<string>, fields: seq<string>): DataRow
    decreases |headers|
  {
    if headers == [] then map[]
    else
      var n := |headers| - 1;
      RowOf(headers[..n], fields)[Trim(headers[n]) := FieldValue(fields, n)]
  }

  /** The keys of every row: the trimmed column names. */
  function Columns(headers: seq<string>): set<string>
  {
    set h | h in headers :: Trim(h)
  }

  /** No later column has the same trimmed name as column `j`. */
  predicate IsLastNamed(headers: seq<string>, j: nat)
    requires j < |headers|
  {
    forall k :: j < k < |headers| ==> Trim(headers[k]) != Trim(headers[j])
  }

  /** The body of `headers.forEach`, run over `fields`. */
  method BuildRow(headers: seq<string>, fields: seq<string>) returns (obj: DataRow)
    ensures obj == RowOf(headers, fields)
    ensures obj.Keys == Columns(headers)
    ensures forall j :: 0 <= j < |headers| && IsLastNamed(headers, j) ==>
                          obj[Trim(headers[j])] == FieldValue(fields, j)
  {
    obj := map[];
    var i := 0;
    while i < |headers|
      invariant 0 <= i <= |headers|
      invariant obj == RowOf(headers[..i], fields)
    {
      assert headers[..i + 1][..i] == headers[..i];
      obj := obj[Trim(headers[i]) := FieldValue(fields, i)];
      i := i + 1;
    }
    assert headers[..|headers|] == headers;
    RowOfContents(headers, fields);
  }

  /** A row's keys are the trimmed column names, and under each name sits
      the trimmed field of the last column with that name. */
  lemma RowOfContents(headers: seq<string>, fields: seq<string>)
    ensures RowOf(headers, fields).Keys == Columns(headers)
    ensures forall j :: 0 <= j < |headers| && IsLastNamed(headers, j) ==>
                          RowOf(headers, fields)[Trim(headers[j])] == FieldValue(fields, j)
  {
    RowOfKeys(headers, fields);
    forall j | 0 <= j < |headers| && IsLastNamed(headers, j)
      ensures RowOf(headers, fields)[Trim(headers[j])] == FieldValue(fields, j)
    {
      RowOfValue(headers, fields, j);
    }
  }

  lemma {:induction false} RowOfKeys(headers: seq<string>, fields: seq<string>)
    ensures RowOf(headers, fields).Keys == Columns(headers)
    decreases |headers|
  {
    if headers != [] {
      var n := |headers| - 1;
      var init, last := headers[..n], headers[n];
      assert headers == init + [last];
      RowOfKeys(init, fields);
      assert forall h :: h in headers <==> h in init || h == last;
      assert Columns(headers) == Columns(init) + {Trim(last)};
    }
  }

  lemma {:induction false} RowOfValue(headers: seq<string>, fields: seq<string>, j: nat)
    requires j < |headers| && IsLastNamed(headers, j)
    ensures Trim(headers[j]) in RowOf(headers, fields)
    ensures RowOf(headers, fields)[Trim(headers[j])] == FieldValue(fields, j)
    decreases |headers|
  {
    var n := |headers| - 1;
    var init := headers[..n];
    var key, lastKey := Trim(headers[j]), Trim(headers[n]);
    assert RowOf(headers, fields) == RowOf(init, fields)[lastKey := FieldValue(fields, n)];
    if j < n {
      assert key != lastKey;
      assert IsLastNamed(init, j) by {
        forall k | j < k < |init| ensures Trim(init[k]) != Trim(init[j]) {
          assert init[k] == headers[k] && init[j] == headers[j];
        }
      }
      RowOfValue(init, fields, j);
      assert init[j] == headers[j];
    }
  }

  /** `jsonData`: one row per data line, in line order. */
  function ParseCsv(csv: string): (rows: seq<DataRow>)
    ensures |rows| == |DataLines(csv)| <= |Lines(csv)| - 1
    ensures forall i :: 0 <= i < |rows| ==> rows[i].Keys == Columns(Headers(csv))
  {
    var headers := Headers(csv);
    var data := DataLines(csv);
    var rows := seq(|data|, i requires 0 <= i < |data| => RowOf(headers, data[i]));
    assert forall i :: 0 <= i < |data| ==> rows[i].Keys == Columns(headers) by {
      forall i | 0 <= i < |data| ensures rows[i].Keys == Columns(headers) {
        RowOfContents(headers, data[i]);
      }
    }
    rows
  }

  /** The rows come from exactly the lines after the first whose width is
      the number of columns, in order, and each holds those lines' trimmed
      fields under the trimmed column names. */
  lemma ParseCsvRows(csv: string)
    ensures Seqs.IsSubsequence(DataLines(csv), Lines(csv)[1..])
    ensures forall fields :: multiset(DataLines(csv))[fields] ==
                               (if |fields| == |Headers(csv)| then multiset(Lines(csv)[1..])[fields] else 0)
    ensures forall i :: 0 <= i < |DataLines(csv)| ==> |DataLines(csv)[i]| == |Headers(csv)|
    ensures forall i, j :: 0 <= i < |ParseCsv(csv)| && 0 <= j < |Headers(csv)| && IsLastNamed(Headers(csv), j) ==>
                             ParseCsv(csv)[i][Trim(Headers(csv)[j])] == Trim(DataLines(csv)[i][j])
  {
    var headers, data := Headers(csv), DataLines(csv);
    Seqs.FilterIsSubsequence(Lines(csv)[1..], HasWidth(|headers|));
    Seqs.FilterMultiset(Lines(csv)[1..], HasWidth(|headers|));
    forall i | 0 <= i < |data| ensures |data[i]| == |headers| {
      assert data[i] in data;
    }
    forall i, j | 0 <= i < |data| && 0 <= j < |headers| && IsLastNamed(headers, j)
      ensures ParseCsv(csv)[i][Trim(headers[j])] == Trim(data[i][j])
    {
      RowOfContents(headers, data[i]);
    }
  }

  // ---------------------------------------------------------------------
  // Round trip and the trailing newline

  /** `fields.join(',')` for each line. */
  function JoinedLines(lines: seq<seq<string>>): (r: seq<string>)
    requires forall line :: line in lines ==> |line| >= 1
    ensures |r| == |lines|
  {
    seq(|lines|, i requires 0 <= i < |lines| => Join(lines[i], ','))
  }

  /** The text of a header line followed by data lines, joined by '\n'. */
  function CsvText(headers: seq<string>, lines: seq<seq<string>>): string
    requires |headers| >= 1
    requires forall line :: line in lines ==> |line| >= 1
  {
    Join([Join(headers, ',')] + JoinedLines(lines), '\n')
  }

  /** A field `split` leaves whole: it holds neither separator. */
  predicate IsPlainField(field: string)
  {
    ',' !in field && '\n' !in field
  }

  lemma {:induction false} JoinAvoids(pieces: seq<string>, sep: char, c: char)
    requires |pieces| >= 1 && c != sep
    requires forall piece :: piece in pieces ==> c !in piece
    ensures c !in Join(pieces, sep)
    decreases |pieces|
  {
    if |pieces| > 1 {
      assert forall piece :: piece in pieces[1..] ==> piece in pieces;
      JoinAvoids(pieces[1..], sep, c);
    }
  }

  /** Splitting the text at '\n' gives back the joined lines. */
  lemma SplitText(headers: seq<string>, lines: seq<seq<string>>)
    requires |headers| >= 1
    requires forall line :: line in lines ==> |line| == |headers|
    requires forall field :: field in headers ==> IsPlainField(field)
    requires forall line, field :: line in lines && field in line ==> IsPlainField(field)
    ensures Split(CsvText(headers, lines), '\n') == [Join(headers, ',')] + JoinedLines(lines)
  {
    var joined := JoinedLines(lines);
    var all := [Join(headers, ',')] + joined;
    JoinAvoids(headers, ',', '\n');
    forall i | 0 <= i < |joined| ensures '\n' !in joined[i] {
      var line := lines[i];
      assert line in lines;
      assert forall field :: field in line ==> '\n' !in field;
      JoinAvoids(line, ',', '\n');
    }
    forall piece | piece in all ensures '\n' !in piece {
      if piece != all[0] {
        assert piece in joined;
      }
    }
    SplitJoin(all, '\n');
  }

  /** Splitting one joined data line at ',' gives back its fields. */
  lemma SplitJoinedLine(lines: seq<seq<string>>, i: nat)
    requires i < |lines|
    requires forall line :: line in lines ==> |line| >= 1
    requires forall line, field :: line in lines && field in line ==> IsPlainField(field)
    ensures Split(JoinedLines(lines)[i], ',') == lines[i]
  {
    var line := lines[i];
    assert line in lines;
    assert forall field :: field in line ==> ',' !in field;
    SplitJoin(line, ',');
  }

  /** Splitting the text gives back the header line and the data lines. */
  lemma LinesOfText(headers: seq<string>, lines: seq<seq<string>>)
    requires |headers| >= 1
    requires forall line :: line in lines ==> |line| == |headers|
    requires forall field :: field in headers ==> IsPlainField(field)
    requires forall line, field :: line in lines && field in line ==> IsPlainField(field)
    ensures Lines(CsvText(headers, lines)) == [headers] + lines
  {
    var csv := CsvText(headers, lines);
    var all := [Join(headers, ',')] + JoinedLines(lines);
    SplitText(headers, lines);
    assert Split(csv, '\n') == all;
    var ls, want := Lines(csv), [headers] + lines;
    forall k | 0 <= k < |want| ensures ls[k] == want[k] {
      if k == 0 {
        SplitJoin(headers, ',');
      } else {
        SplitJoinedLine(lines, k - 1);
        assert all[k] == JoinedLines(lines)[k - 1];
      }
    }
  }

  /** Parsing the text of a header line and data lines of matching width,
      none of whose fields holds a ',' or a '\n', yields one row per data
      line, in order. */
  lemma ParseCsvText(headers: seq<string>, lines: seq<seq<string>>)
    requires |headers| >= 1
    requires forall line :: line in lines ==> |line| == |headers|
    requires forall field :: field in headers ==> IsPlainField(field)
    requires forall line, field :: line in lines && field in line ==> IsPlainField(field)
    ensures |ParseCsv(CsvText(headers, lines))| == |lines|
    ensures forall i :: 0 <= i < |lines| ==> ParseCsv(CsvText(headers, lines))[i] == RowOf(headers, lines[i])
  {
    var csv := CsvText(headers, lines);
    LinesOfText(headers, lines);
    assert Lines(csv)[1..] == lines;
    assert Headers(csv) == headers;
    Seqs.FilterAllKept(lines, HasWidth(|headers|));
    assert DataLines(csv) == lines;
  }

  /** Splitting text that ends in the separator gives one more, empty, piece. */
  lemma {:induction false} SplitAppendSep(s: string, sep: char)
    ensures Split(s + [sep], sep) == Split(s, sep) + [""]
    decreases |s|
  {
    if s == [] {
      assert [] + [sep] == [sep];
      assert [sep][1..] == [];
    } else {
      assert (s + [sep])[1..] == s[1..] + [sep];
      SplitAppendSep(s[1..], sep);
    }
  }

  /** With a trailing newline the header is the same, and the data lines
      gain one line, the single empty field, exactly when there is one
      column. */
  lemma DataLinesTrailing(csv: string)
    ensures Headers(csv + "\n") == Headers(csv)
    ensures DataLines(csv + "\n") ==
      DataLines(csv) + (if |Headers(csv)| == 1 then [[""]] else [])
  {
    SplitAppendSep(csv, '\n');
    var a, b := Lines(csv), Lines(csv + "\n");
    assert Split("", ',') == [""];
    assert b == a + [[""]];
    assert b[1..] == a[1..] + [[""]];
    Seqs.FilterConcat(a[1..], [[""]], HasWidth(|Headers(csv)|));
  }

  /** A trailing newline adds the line "", of width one: it is dropped,
      unless the file has a single column, in which case it becomes a row
      whose only value is "". */
  lemma TrailingNewline(csv: string)
    ensures ParseCsv(csv + "\n") ==
      ParseCsv(csv) + (if |Headers(csv)| == 1 then [RowOf(Headers(csv), [""])] else [])
  {
    DataLinesTrailing(csv);
    var h, data, data' := Headers(csv), DataLines(csv), DataLines(csv + "\n");
    var r, r0 := ParseCsv(csv + "\n"), ParseCsv(csv);
    var want := r0 + (if |h| == 1 then [RowOf(h, [""])] else []);
    assert |r| == |want|;
    forall i | 0 <= i < |r| ensures r[i] == want[i] {
      assert r[i] == RowOf(h, data'[i]);
      if i < |data| {
        assert r0[i] == RowOf(h, data[i]);
        assert data'[i] == data[i];
      } else {
        assert data'[i] == [""];
      }
    }
  }
}
