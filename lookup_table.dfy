/**
  Loading the lookup table (`load_lookup_table`): a CSV source of `port,protocol,tag`
  rows, header first, becomes a map from (port, protocol) to tag. The CSV reader itself
  is outside the model: the source arrives as rows already split into fields.
 */
module LookupTable {
  import opened Wrappers
  import opened Text

  /** A (destination port, protocol name) pair, compared as text. */
  type Key = (string, string)

  type Table = map<Key, string>

  /** One row as the CSV reader yields it. */
  type Row = seq<string>

  /** Reading the header of a source with no rows at all raises; the loader re-raises. */
  datatype LoadError = MissingHeader

  /** Only rows with exactly three fields are entries; every other row is skipped. */
  predicate IsEntry(row: Row) {
    |row| == 3
  }

  /** The key an entry row is stored under: port and protocol, each stripped. */
  function EntryKey(row: Row): Key
    requires IsEntry(row)
  {
    (Strip(row[0]), Strip(row[1]))
  }

  /** The tag an entry row stores: its third field, stripped. */
  function EntryTag(row: Row): string
    requires IsEntry(row)
  {
    Strip(row[2])
  }

  /** The table after storing the data rows one after another, a later entry
      overwriting an earlier one with the same key. */
  function TableOf(rows: seq<Row>): Table {
    if rows == [] then map[]
    else
      var table, row := TableOf(rows[..|rows| - 1]), rows[|rows| - 1];
      if IsEntry(row) then table[EntryKey(row) := EntryTag(row)] else table
  }

  /** What loading a source yields: the first row is dropped unread, the rest build the table. */
  function Load(source: seq<Row>): (r: Result<Table, LoadError>)
    ensures r.Err? <==> source == []
    ensures |source| == 1 ==> r == Ok(map[])
  {
    if source == [] then Err(MissingHeader) else Ok(TableOf(source[1..]))
  }

  /** `load_lookup_table`: skip the header, then store each three-field row. */
  method LoadLookupTable(source: seq<Row>) returns (r: Result<Table, LoadError>)
    ensures r == Load(source)
  {
    if |source| == 0 {
      return Err(MissingHeader);
    }
    var lookup: Table := map[];
    var i := 1;
    while i < |source|
      invariant 1 <= i <= |source|
      invariant lookup == TableOf(source[1..i])
    {
      var row := source[i];
      if |row| == 3 {
        var port, protocol, tag := row[0], row[1], row[2];
        lookup := lookup[(Strip(port), Strip(protocol)) := Strip(tag)];
      }
      assert source[1..i + 1][..i - 1] == source[1..i];
      i := i + 1;
    }
    assert source[1..i] == source[1..];
    return Ok(lookup);
  }

  /** A key is in the table exactly when some entry row carries it. */
  lemma {:induction false} TableKeys(rows: seq<Row>, k: Key)
    ensures k in TableOf(rows) <==> exists i :: 0 <= i < |rows| && IsEntry(rows[i]) && EntryKey(rows[i]) == k
  {
    if rows != [] {
      var init := rows[..|rows| - 1];
      TableKeys(init, k);
      if k in TableOf(init) {
        var i :| 0 <= i < |init| && IsEntry(init[i]) && EntryKey(init[i]) == k;
        assert rows[i] == init[i];
      }
      if exists i :: 0 <= i < |rows| && IsEntry(rows[i]) && EntryKey(rows[i]) == k {
        var i :| 0 <= i < |rows| && IsEntry(rows[i]) && EntryKey(rows[i]) == k;
        if i < |rows| - 1 {
          assert init[i] == rows[i];
        }
      }
    }
  }

  /** Last write wins: the tag stored under a key is the one from the last entry row with that key. */
  lemma {:induction false} LastWriteWins(rows: seq<Row>, i: nat)
    requires i < |rows| && IsEntry(rows[i])
    requires forall j :: i < j < |rows| && IsEntry(rows[j]) ==> EntryKey(rows[j]) != EntryKey(rows[i])
    ensures EntryKey(rows[i]) in TableOf(rows)
    ensures TableOf(rows)[EntryKey(rows[i])] == EntryTag(rows[i])
  {
    if i < |rows| - 1 {
      var init := rows[..|rows| - 1];
      assert init[i] == rows[i];
      forall j | i < j < |init| && IsEntry(init[j]) ensures EntryKey(init[j]) != EntryKey(init[i]) {
        assert init[j] == rows[j];
      }
      LastWriteWins(init, i);
    }
  }

  /** A row without exactly three fields can be removed from anywhere without changing the table. */
  lemma {:induction false} MalformedRowIgnored(before: seq<Row>, row: Row, after: seq<Row>)
    requires !IsEntry(row)
    ensures TableOf(before + [row] + after) == TableOf(before + after)
  {
    if after == [] {
      assert (before + [row] + after)[..|before| + 1 - 1] == before;
      assert before + after == before;
    } else {
      var init := after[..|after| - 1];
      var last := after[|after| - 1];
      MalformedRowIgnored(before, row, init);
      assert (before + [row] + after)[..|before + [row] + after| - 1] == before + [row] + init;
      assert (before + after)[..|before + after| - 1] == before + init;
    }
  }

  /** Stored keys and tags never start or end with whitespace; nothing else (such as case) is changed. */
  lemma {:induction false} TableTrimmed(rows: seq<Row>)
    ensures forall k :: k in TableOf(rows) ==> NoEdgeSpace(k.0) && NoEdgeSpace(k.1) && NoEdgeSpace(TableOf(rows)[k])
  {
    if rows != [] {
      TableTrimmed(rows[..|rows| - 1]);
    }
  }

  /** The header row is never looked at: any first row gives the same result. */
  lemma HeaderNotValidated(header1: Row, header2: Row, rows: seq<Row>)
    ensures Load([header1] + rows) == Load([header2] + rows)
  {
    assert ([header1] + rows)[1..] == rows == ([header2] + rows)[1..];
  }

  /** Storing one more row, spelled out. */
  lemma TableOfSnoc(rows: seq<Row>, row: Row)
    ensures TableOf(rows + [row]) == if IsEntry(row) then TableOf(rows)[EntryKey(row) := EntryTag(row)] else TableOf(rows)
  {
    assert (rows + [row])[..|rows|] == rows;
  }

  /** A row whose fields carry no surrounding whitespace is stored as it stands. */
  lemma TrimmedEntry(port: string, protocol: string, tag: string)
    requires NoEdgeSpace(port) && NoEdgeSpace(protocol) && NoEdgeSpace(tag)
    ensures EntryKey([port, protocol, tag]) == (port, protocol) && EntryTag([port, protocol, tag]) == tag
  {
  }

  /** The source used for malformed lookup data: one line with a single field, one with
      four fields, one with four empty fields; only the two well-formed rows are stored. */
  lemma MalformedRowsExample(header: Row)
    ensures Load([header, ["80", "tcp", "web-traffic"], ["invalid_line"],
                  ["443", "tcp", "secure-web", "extra_field"], ["", "", "", ""], ["53", "udp", "dns"]])
         == Ok(map[("80", "tcp") := "web-traffic", ("53", "udp") := "dns"])
  {
    var a, b, c, d, e := ["80", "tcp", "web-traffic"], ["invalid_line"],
                         ["443", "tcp", "secure-web", "extra_field"], ["", "", "", ""], ["53", "udp", "dns"];
    TrimmedEntry("80", "tcp", "web-traffic");
    TrimmedEntry("53", "udp", "dns");
    var s1 := [] + [a];
    var s2 := s1 + [b];
    var s3 := s2 + [c];
    var s4 := s3 + [d];
    TableOfSnoc([], a);
    TableOfSnoc(s1, b);
    TableOfSnoc(s2, c);
    TableOfSnoc(s3, d);
    TableOfSnoc(s4, e);
    assert [header, a, b, c, d, e][1..] == s4 + [e];
  }
}
