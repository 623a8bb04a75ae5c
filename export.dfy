/**
 * `export_to_csv` without the file system: choosing the first unused file name
 * and rendering the table the CSV writer receives.
 */
module Export {
  import opened Wrappers
  import opened Text
  import opened Scanner

  const DEFAULT_BASE_FILENAME := "scan_result"

  const HEADER: seq<string> := ["IP Address", "Hostname", "Open Ports"]

  /** `f"{base_filename}_{counter}.csv"`. */
  function CsvName(base: string, counter: nat): string {
    base + "_" + NatToString(counter) + ".csv"
  }

  /** With no base name given, the first file tried is `scan_result_1.csv`. */
  lemma DefaultFirstFilename()
    ensures CsvName(DEFAULT_BASE_FILENAME, 1) == "scan_result_1.csv"
  {
    assert NatToString(1) == "1";
  }

  lemma CsvNameInjective(base: string, m: nat, n: nat)
    ensures CsvName(base, m) == CsvName(base, n) <==> m == n
  {
    var a, b := CsvName(base, m), CsvName(base, n);
    if a == b {
      assert a[|base| + 1..|a| - 4] == NatToString(m);
      assert b[|base| + 1..|b| - 4] == NatToString(n);
      NatToStringInjective(m, n);
    }
  }

  /** The names for counters 1 .. c - 1 are c - 1 different names. */
  lemma {:induction false} CsvNamesBelow(base: string, c: nat)
    requires c >= 1
    ensures |set k | 1 <= k < c :: CsvName(base, k)| == c - 1
    decreases c
  {
    if c > 1 {
      CsvNamesBelow(base, c - 1);
      var below := set k | 1 <= k < c - 1 :: CsvName(base, k);
      assert (set k | 1 <= k < c :: CsvName(base, k)) == below + {CsvName(base, c - 1)};
      if CsvName(base, c - 1) in below {
        var k :| 1 <= k < c - 1 && CsvName(base, k) == CsvName(base, c - 1);
        CsvNameInjective(base, k, c - 1);
      }
    }
  }

  /**
   * The counter loop of `export_to_csv`: the least counter from 1 up whose
   * file does not exist yet, and that file's name.
   */
  method NextFilename(existing: set<string>, base: string) returns (filename: string, counter: nat)
    ensures counter >= 1 && filename == CsvName(base, counter)
    ensures filename !in existing
    ensures forall k :: 1 <= k < counter ==> CsvName(base, k) in existing
  {
    counter := 1;
    while CsvName(base, counter) in existing
      invariant counter >= 1
      invariant forall k :: 1 <= k < counter ==> CsvName(base, k) in existing
      decreases |existing| + 1 - counter
    {
      CsvNamesBelow(base, counter + 1);
      var used := set k | 1 <= k < counter + 1 :: CsvName(base, k);
      assert used <= existing;
      assert |used| <= |existing| by {
        SubsetSize(used, existing);
      }
      counter := counter + 1;
    }
    filename := CsvName(base, counter);
  }

  lemma SubsetSize<T>(a: set<T>, b: set<T>)
    requires a <= b
    ensures |a| <= |b|
  {
    assert b == a + (b - a);
  }

  /** `", ".join(map(str, ports)) if ports else "None"`. */
  function PortsCell(ports: seq<int>): string {
    if ports != [] then Join(IntStrings(ports), ", ") else "None"
  }

  function IntStrings(ports: seq<int>): (strs: seq<string>)
    ensures |strs| == |ports| && forall k :: 0 <= k < |strs| ==> strs[k] == IntToString(ports[k])
  {
    if ports == [] then [] else IntStrings(ports[..|ports| - 1]) + [IntToString(ports[|ports| - 1])]
  }

  /** One data row: address, hostname and the rendered port list. */
  function CsvRow(record: HostRecord): (row: seq<string>) {
    [record.ip, record.hostname, PortsCell(record.ports)]
  }

  /** The rows handed to the CSV writer: the header, then one row per entry, in order. */
  function CsvTable(data: seq<HostRecord>): (rows: seq<seq<string>>)
    ensures |rows| == |data| + 1 && rows[0] == HEADER
    ensures forall k :: 0 <= k < |data| ==> rows[k + 1] == CsvRow(data[k])
  {
    if data == [] then [HEADER] else CsvTable(data[..|data| - 1]) + [CsvRow(data[|data| - 1])]
  }

  /**
   * `export_to_csv` with the set of files that already exist given: the file
   * name it writes and the rows it writes there.
   */
  method ExportToCsv(data: seq<HostRecord>, existing: set<string>, base: string)
    returns (filename: string, rows: seq<seq<string>>)
    ensures filename !in existing
    ensures exists n: nat :: (n >= 1 && filename == CsvName(base, n) &&
                              forall k :: 1 <= k < n ==> CsvName(base, k) in existing)
    ensures rows == CsvTable(data)
  {
    var counter;
    filename, counter := NextFilename(existing, base);
    rows := CsvTable(data);
  }

  // ------------------------------------------------ reading the cell back

  /** Reads back the port cell: `"None"`, or decimal numbers separated by `", "`. */
  function ParsePortsCell(cell: string): Option<seq<int>> {
    if cell == "None" then Some([]) else ParsePieces(Split(cell, ','))
  }

  /** The pieces between commas: the first a number, every later one a space and a number. */
  function ParsePieces(pieces: seq<string>): Option<seq<int>>
    decreases |pieces|
  {
    if pieces == [] then None
    else if |pieces| == 1 then
      (match ParseInt(pieces[0]) case Some(p) => Some([p]) case None => None)
    else
      var last := pieces[|pieces| - 1];
      match ParsePieces(pieces[..|pieces| - 1])
      case None => None
      case Some(front) =>
        if |last| > 0 && last[0] == ' ' then
          (match ParseInt(last[1..]) case Some(p) => Some(front + [p]) case None => None)
        else None
  }

  /** The pieces of `", ".join(strs)` between its commas: every one after the first gains a leading space. */
  function Spaced(strs: seq<string>): (pieces: seq<string>)
    requires |strs| >= 1
    ensures |pieces| == |strs| && pieces[0] == strs[0]
    ensures forall k :: 1 <= k < |strs| ==> pieces[k] == " " + strs[k]
  {
    if |strs| == 1 then strs else Spaced(strs[..|strs| - 1]) + [" " + strs[|strs| - 1]]
  }

  lemma SpacedSnoc(strs: seq<string>, s: string)
    requires |strs| >= 1
    ensures Spaced(strs + [s]) == Spaced(strs) + [" " + s]
  {
    assert (strs + [s])[..|strs|] == strs;
  }

  lemma IntStringsSnoc(ports: seq<int>, p: int)
    ensures IntStrings(ports + [p]) == IntStrings(ports) + [IntToString(p)]
  {
    assert (ports + [p])[..|ports|] == ports;
  }

  /** Joining with `", "` is joining the spaced pieces with `","`. */
  lemma {:induction false} JoinSpaced(strs: seq<string>)
    requires |strs| >= 1
    ensures Join(strs, ", ") == Join(Spaced(strs), ",")
    decreases |strs|
  {
    if |strs| > 1 {
      var init, last := strs[..|strs| - 1], strs[|strs| - 1];
      assert strs == init + [last];
      JoinSpaced(init);
      JoinSnoc(init, last, ", ");
      SpacedSnoc(init, last);
      JoinSnoc(Spaced(init), " " + last, ",");
    }
  }

  lemma IntStringHasNoComma(i: int)
    ensures ',' !in IntToString(i)
  {
    var s := IntToString(i);
    if i < 0 {
      assert s == "-" + NatToString(-i);
    }
  }

  lemma ParsePiecesSnoc(front: seq<string>, values: seq<int>, p: int)
    requires |front| >= 1 && ParsePieces(front) == Some(values)
    ensures ParsePieces(front + [" " + IntToString(p)]) == Some(values + [p])
  {
    var last := " " + IntToString(p);
    var pieces := front + [last];
    assert pieces[..|pieces| - 1] == front && pieces[|pieces| - 1] == last;
    assert last[1..] == IntToString(p);
    IntToStringRoundTrip(p);
    assert ParseInt(last[1..]) == Some(p);
  }

  lemma {:induction false} ParseSpaced(ports: seq<int>)
    requires |ports| >= 1
    ensures ParsePieces(Spaced(IntStrings(ports))) == Some(ports)
    decreases |ports|
  {
    if |ports| == 1 {
      IntToStringRoundTrip(ports[0]);
      assert IntStrings(ports) == [IntToString(ports[0])];
      assert ports == [ports[0]];
    } else {
      var init, p := ports[..|ports| - 1], ports[|ports| - 1];
      assert ports == init + [p];
      ParseSpaced(init);
      IntStringsSnoc(init, p);
      SpacedSnoc(IntStrings(init), IntToString(p));
      ParsePiecesSnoc(Spaced(IntStrings(init)), init, p);
    }
  }

  /** The spaced pieces of a rendered port list hold no comma, so splitting their join gives them back. */
  lemma SplitSpaced(ports: seq<int>)
    requires |ports| >= 1
    ensures var pieces := Spaced(IntStrings(ports));
      Split(Join(pieces, ","), ',') == pieces
  {
    var strs := IntStrings(ports);
    var pieces := Spaced(strs);
    forall k | 0 <= k < |pieces| ensures ',' !in pieces[k] {
      IntStringHasNoComma(ports[k]);
      assert k > 0 ==> pieces[k] == " " + strs[k];
    }
    SplitJoin(pieces, ',');
  }

  /** The comma-separated pieces of a rendered non-empty port list read back as that list. */
  lemma ParseJoined(ports: seq<int>)
    requires |ports| >= 1
    ensures ParsePieces(Split(Join(IntStrings(ports), ", "), ',')) == Some(ports)
  {
    SplitSpaced(ports);
    JoinSpaced(IntStrings(ports));
    ParseSpaced(ports);
  }

  /** Reading the port cell back gives the port list that was rendered. */
  lemma PortsCellRoundTrip(ports: seq<int>)
    ensures ParsePortsCell(PortsCell(ports)) == Some(ports)
  {
    if ports != [] {
      var strs := IntStrings(ports);
      var cell := Join(strs, ", ");
      ParseJoined(ports);
      JoinStartsWithFirst(strs, ", ");
      assert cell[0] == strs[0][0];
      assert cell != "None";
    }
  }

  /** The placeholder `"None"` stands exactly for an empty port list. */
  lemma PortsCellNoneIffEmpty(ports: seq<int>)
    ensures PortsCell(ports) == "None" <==> ports == []
  {
    PortsCellRoundTrip(ports);
  }
}
