/** The peer roster of `brokers/broker.py`: `load_peers` reads a CSV text,
    skips its header line, turns each `ip,port` row into the address
    `(ip, int(port))` and drops the broker's own address. The same
    host/port splitting serves the `ip:port` command-line arguments of
    `brokers/failure_detection.py`. */
module Roster {
  import opened Wrappers
  import opened PyText
  import opened Addresses
  import Seqs

  /** `host, port = t.split(sep)` followed by `(host, int(port))`; `None`
      stands for the `ValueError` either step raises. */
  function ParseHostPort(t: string, sep: char): Option<Addr> {
    var fields := Split(t, sep);
    if |fields| != 2 then None
    else match ParseInt(fields[1])
      case None => None
      case Some(port) => Some((fields[0], port))
  }

  /** An address written as host, separator, decimal port reads back as
      itself whenever the host is free of the separator. */
  lemma ParseHostPortOf(a: Addr, sep: char)
    requires sep !in a.0 && (sep == ',' || sep == ':')
    ensures ParseHostPort(a.0 + [sep] + ShowInt(a.1), sep) == Some(a)
  {
    var p := ShowInt(a.1);
    assert forall i :: 0 <= i < |p| ==> p[i] != sep;
    SplitTwo(a.0 + [sep] + p, sep, a.0, p);
    ParseShowInt(a.1);
  }

  /** Direct reading of "`t` is `host`, the separator, and a port number":
      the host is the text before the only separator, the port is what
      `int()` makes of the text after it. */
  predicate SplitsAs(t: string, sep: char, a: Addr) {
    && |a.0| < |t|
    && t[..|a.0|] == a.0
    && t[|a.0|] == sep
    && sep !in a.0
    && sep !in t[|a.0| + 1..]
    && ParseInt(t[|a.0| + 1..]) == Some(a.1)
  }

  /** Host/port parsing succeeds with exactly the addresses `t` spells. */
  lemma ParseHostPortMeaning(t: string, sep: char, a: Addr)
    ensures ParseHostPort(t, sep) == Some(a) <==> SplitsAs(t, sep, a)
  {
    if SplitsAs(t, sep, a) {
      SplitsAsParses(t, sep, a);
    }
    if ParseHostPort(t, sep) == Some(a) {
      ParsesSplitsAs(t, sep, a);
    }
  }

  lemma SplitsAsParses(t: string, sep: char, a: Addr)
    requires SplitsAs(t, sep, a)
    ensures ParseHostPort(t, sep) == Some(a)
  {
    var rest := t[|a.0| + 1..];
    assert t == a.0 + [sep] + rest;
    SplitTwo(t, sep, a.0, rest);
  }

  lemma ParsesSplitsAs(t: string, sep: char, a: Addr)
    requires ParseHostPort(t, sep) == Some(a)
    ensures SplitsAs(t, sep, a)
  {
    var fields := Split(t, sep);
    assert |fields| == 2;
    SplitTwo(t, sep, fields[0], fields[1]);
    assert t == a.0 + [sep] + fields[1];
    assert t[|a.0| + 1..] == fields[1];
  }

  /** One roster row: `line.strip().split(',')`, then `(ip, int(port))`. */
  function ParseRow(line: string): Option<Addr> {
    ParseHostPort(Strip(line), ',')
  }

  /** A row parses to `a` exactly when, once stripped, it spells `a` as
      host, comma and port. */
  lemma ParseRowMeaning(line: string, a: Addr)
    ensures ParseRow(line) == Some(a) <==> SplitsAs(Strip(line), ',', a)
  {
    ParseHostPortMeaning(Strip(line), ',', a);
  }

  /** Every row parsed on its own, in file order. */
  function ParseRows(rows: seq<string>): (parsed: seq<Option<Addr>>)
    ensures |parsed| == |rows|
  {
    seq(|rows|, i requires 0 <= i < |rows| => ParseRow(rows[i]))
  }

  /** The loop of `load_peers` over the parse results of its rows: each
      address other than the broker's own is appended, and the first
      malformed row raises inside the loop's single `try`, which ends the
      loop and keeps the peers appended so far. */
  function Collect(parsed: seq<Option<Addr>>, own: Addr): (peers: seq<Addr>)
    ensures own !in peers
    ensures |peers| <= |parsed|
  {
    if |parsed| == 0 then []
    else match parsed[0]
      case None => []
      case Some(a) => (if a == own then [] else [a]) + Collect(parsed[1..], own)
  }

  /** The rows after the header, as `load_peers` processes them. */
  function LoadRows(rows: seq<string>, own: Addr): (peers: seq<Addr>)
    ensures own !in peers
    ensures |peers| <= |rows|
  {
    Collect(ParseRows(rows), own)
  }

  /** `load_peers(file)`: `None` is a file that cannot be opened, which the
      source reports and answers with an empty list. */
  function LoadPeers(file: Option<string>, own: Addr): (peers: seq<Addr>)
    ensures own !in peers
    ensures file.None? ==> peers == []
  {
    match file
    case None => []
    case Some(text) =>
      var lines := ReadLines(text);
      if |lines| == 0 then [] else LoadRows(lines[1..], own)
  }

  // ---------------------------------------------------------------------
  // What the loop computes, stated without it

  lemma {:induction false} CollectSpec(parsed: seq<Option<Addr>>, own: Addr)
    ensures Collect(parsed, own) == Seqs.Without(Seqs.TakeSome(parsed), own)
    decreases |parsed|
  {
    if |parsed| > 0 && parsed[0].Some? {
      CollectSpec(parsed[1..], own);
      var a := parsed[0].value;
      assert Seqs.TakeSome(parsed) == [a] + Seqs.TakeSome(parsed[1..]);
      Seqs.WithoutCons(a, Seqs.TakeSome(parsed[1..]), own);
    }
  }

  /** `load_peers` returns the addresses of the rows before the first
      malformed one (`TakeSome` of the parse results), in file order, with
      the broker's own address removed. */
  lemma LoadRowsSpec(rows: seq<string>, own: Addr)
    ensures LoadRows(rows, own) == Seqs.Without(Seqs.TakeSome(ParseRows(rows)), own)
  {
    CollectSpec(ParseRows(rows), own);
  }

  lemma {:induction false} CollectStops(parsed: seq<Option<Addr>>, own: Addr, k: nat)
    requires k < |parsed| && parsed[k].None?
    ensures Collect(parsed, own) == Collect(parsed[..k], own)
    decreases k
  {
    if k > 0 && parsed[0].Some? {
      CollectStops(parsed[1..], own, k - 1);
      assert parsed[..k][1..] == parsed[1..][..k - 1];
    }
  }

  /** A malformed row ends parsing: nothing after it contributes, and the
      result is what the rows before it give on their own. */
  lemma MalformedRowStops(rows: seq<string>, own: Addr, k: nat)
    requires k < |rows| && ParseRow(rows[k]).None?
    ensures LoadRows(rows, own) == LoadRows(rows[..k], own)
  {
    assert ParseRows(rows[..k]) == ParseRows(rows)[..k];
    CollectStops(ParseRows(rows), own, k);
  }

  /** The header line is read and ignored: whatever it says, the peers are
      those of the lines after it. */
  lemma LoadPeersSkipsHeader(header: string, body: string, own: Addr)
    requires '\n' !in header
    ensures LoadPeers(Some(header + "\n" + body), own) == LoadRows(ReadLines(body), own)
  {
    ReadLinesCons(header, body);
    assert ([header + "\n"] + ReadLines(body))[1..] == ReadLines(body);
  }

  // ---------------------------------------------------------------------
  // Writing a roster, and reading it back

  /** A host that survives a CSV row: no comma, no line break, and no leading
      whitespace for `strip()` to eat. */
  predicate CsvHost(h: string) {
    ',' !in h && '\n' !in h && (|h| == 0 || !IsSpace(h[0]))
  }

  function Row(a: Addr): string {
    a.0 + "," + ShowInt(a.1)
  }

  function Rows(addrs: seq<Addr>): string {
    if |addrs| == 0 then [] else Row(addrs[0]) + "\n" + Rows(addrs[1..])
  }

  /** A roster file with the given header line and one row per address. */
  function RenderRoster(header: string, addrs: seq<Addr>): string {
    header + "\n" + Rows(addrs)
  }

  lemma RowTrimmed(a: Addr)
    requires CsvHost(a.0)
    ensures '\n' !in Row(a) && Trimmed(Row(a))
  {
    var p := ShowInt(a.1);
    var row := Row(a);
    assert row == a.0 + [','] + p;
    assert forall i :: 0 <= i < |p| ==> p[i] != '\n';
    assert row[|row| - 1] == p[|p| - 1];
    if |a.0| == 0 {
      assert row[0] == ',';
    } else {
      assert row[0] == a.0[0];
    }
  }

  /** A rendered row, with its line break, parses back to its address. */
  lemma RowParses(a: Addr)
    requires CsvHost(a.0)
    ensures '\n' !in Row(a)
    ensures ParseRow(Row(a) + "\n") == Some(a)
  {
    RowTrimmed(a);
    StripOf([], Row(a), "\n");
    assert [] + Row(a) + "\n" == Row(a) + "\n";
    ParseHostPortOf(a, ',');
  }

  /** The lines `readlines()` returns for the rows of a roster. */
  function RowLines(addrs: seq<Addr>): (lines: seq<string>)
    ensures |lines| == |addrs|
  {
    seq(|addrs|, i requires 0 <= i < |addrs| => Row(addrs[i]) + "\n")
  }

  lemma RowLinesCons(addrs: seq<Addr>)
    requires |addrs| > 0
    ensures RowLines(addrs) == [Row(addrs[0]) + "\n"] + RowLines(addrs[1..])
  {
    var l := RowLines(addrs);
    var r := [Row(addrs[0]) + "\n"] + RowLines(addrs[1..]);
    forall i | 0 <= i < |l|
      ensures l[i] == r[i]
    {
      if i > 0 {
        assert r[i] == RowLines(addrs[1..])[i - 1];
        assert addrs[1..][i - 1] == addrs[i];
      }
    }
  }

  lemma ReadRowsStep(addrs: seq<Addr>)
    requires |addrs| > 0 && '\n' !in Row(addrs[0])
    requires ReadLines(Rows(addrs[1..])) == RowLines(addrs[1..])
    ensures ReadLines(Rows(addrs)) == RowLines(addrs)
  {
    var row := Row(addrs[0]);
    var rest := Rows(addrs[1..]);
    assert Rows(addrs) == row + "\n" + rest;
    ReadLinesCons(row, rest);
    RowLinesCons(addrs);
  }

  lemma {:induction false} ReadRows(addrs: seq<Addr>)
    requires forall i :: 0 <= i < |addrs| ==> CsvHost(addrs[i].0)
    ensures ReadLines(Rows(addrs)) == RowLines(addrs)
    decreases |addrs|
  {
    if |addrs| > 0 {
      RowTrimmed(addrs[0]);
      ReadRows(addrs[1..]);
      ReadRowsStep(addrs);
    }
  }

  lemma LoadRowLines(addrs: seq<Addr>, own: Addr)
    requires forall i :: 0 <= i < |addrs| ==> CsvHost(addrs[i].0)
    ensures LoadRows(RowLines(addrs), own) == Seqs.Without(addrs, own)
  {
    var parsed := ParseRows(RowLines(addrs));
    forall i | 0 <= i < |addrs|
      ensures parsed[i] == Some(addrs[i])
    {
      RowParses(addrs[i]);
    }
    Seqs.TakeSomeAll(parsed, addrs);
    LoadRowsSpec(RowLines(addrs), own);
  }

  /** Writing a roster and loading it gives back the listed peers, in order,
      without the broker's own address. */
  lemma LoadPeersRoundTrip(header: string, addrs: seq<Addr>, own: Addr)
    requires '\n' !in header
    requires forall i :: 0 <= i < |addrs| ==> CsvHost(addrs[i].0)
    ensures LoadPeers(Some(RenderRoster(header, addrs)), own) == Seqs.Without(addrs, own)
  {
    LoadPeersSkipsHeader(header, Rows(addrs), own);
    ReadRows(addrs);
    LoadRowLines(addrs, own);
  }
}
