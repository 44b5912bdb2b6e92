/** The scanner service: the tolerant CSV parser that turns a helipad list
    into records, the discovery of scenery files under the community folder,
    and the matcher that links each record to the scenery files whose name
    contains its ICAO code. */
module Scanner {
  import opened Wrappers
  import opened Text
  import opened Paths
  import opened Models
  import FileServices

  /** `Math.Max(1, n)`, the divisor of every progress fraction. */
  function AtLeastOne(n: int): (r: int)
    ensures r >= 1 && r >= n
    ensures n >= 1 ==> r == n
    ensures n < 1 ==> r == 1
  {
    if n < 1 then 1 else n
  }

  // ---------------------------------------------------------------------
  // CSV header
  // ---------------------------------------------------------------------

  /** The key a header cell is stored under: the trimmed cell, compared
      ignoring case. */
  function HeaderKey(cell: string): string {
    Lower(Trim(cell))
  }

  /** The header dictionary once cells `0 .. |cells| - 1` are stored, each
      under its key, a later cell overwriting an earlier one with the same key. */
  function HeaderIndex(cells: seq<string>): map<string, nat> {
    if cells == [] then map[]
    else HeaderIndex(cells[..|cells| - 1])[HeaderKey(cells[|cells| - 1]) := |cells| - 1]
  }

  /** A key is present exactly when some header cell has it, and it then
      names the LAST such column. */
  lemma {:induction false} HeaderIndexIsLastColumn(cells: seq<string>, key: string)
    ensures key in HeaderIndex(cells) <==> exists j :: 0 <= j < |cells| && HeaderKey(cells[j]) == key
    ensures key in HeaderIndex(cells) ==>
      var j := HeaderIndex(cells)[key];
      j < |cells| && HeaderKey(cells[j]) == key &&
      forall k :: j < k < |cells| ==> HeaderKey(cells[k]) != key
  {
    if cells != [] {
      var last := |cells| - 1;
      var front := cells[..last];
      assert forall k :: 0 <= k < last ==> cells[k] == front[k];
      HeaderIndexIsLastColumn(front, key);
      var lastKey := HeaderKey(cells[last]);
      assert HeaderIndex(cells) == HeaderIndex(front)[lastKey := last];
    }
  }

  /** The header loop stores every cell under its key, in column order. */
  method BuildHeaderIndex(header: seq<string>) returns (indices: map<string, nat>)
    ensures indices == HeaderIndex(header)
  {
    indices := map[];
    for i := 0 to |header|
      invariant indices == HeaderIndex(header[..i])
    {
      assert header[..i + 1][..i] == header[..i];
      indices := indices[HeaderKey(header[i]) := i];
    }
    assert header[..|header|] == header;
  }

  /** `indices.ContainsKey(name)` on the case-insensitive dictionary. */
  predicate Has(indices: map<string, nat>, name: string) {
    Lower(name) in indices
  }

  /** `indices[name]` on the case-insensitive dictionary. */
  function At(indices: map<string, nat>, name: string): nat
    requires Has(indices, name)
  {
    indices[Lower(name)]
  }

  // ---------------------------------------------------------------------
  // CSV rows
  // ---------------------------------------------------------------------

  /** What one data line contributes: the four fields of a helipad. */
  datatype CsvRecord = CsvRecord(icao: string, name: string, latitude: real, longitude: real)

  /** The local `Get(idx)`: the trimmed field at `idx`, or empty when `idx`
      is outside the line. */
  function Field(parts: seq<string>, idx: int): (r: string)
    ensures Trimmed(r)
    ensures 0 <= idx < |parts| ==> exists i :: OccursAt(parts[idx], r, i)
    ensures 0 <= idx < |parts| ==> (r == [] <==> IsBlank(parts[idx]))
    ensures !(0 <= idx < |parts|) ==> r == []
  {
    if 0 <= idx && idx < |parts| then
      TrimSpec(parts[idx]);
      Trim(parts[idx])
    else []
  }

  /** A coordinate that does not parse reads as zero. */
  function OrZero(v: Option<real>): real {
    if v.Some? then v.value else 0.0
  }

  /** One data line, with `parse` standing for `double.TryParse` in the
      invariant culture. */
  function ParseRow(indices: map<string, nat>, line: string, parse: string -> Option<real>): CsvRecord {
    var parts := Split(line, ',');
    var hasIcao := Has(indices, "ICAO");
    var hasLat := Has(indices, "Latitude") || Has(indices, "Lat");
    var hasLon := Has(indices, "Longitude") || Has(indices, "Lon") || Has(indices, "Lng");
    var icao := if hasIcao then Field(parts, At(indices, "ICAO")) else [];
    var name := if Has(indices, "Name") then Field(parts, At(indices, "Name")) else [];
    var latS := if hasLat then
        Field(parts, if Has(indices, "Latitude") then At(indices, "Latitude")
                     else if Has(indices, "Lat") then At(indices, "Lat") else -1)
      else [];
    var lonS := if hasLon then
        Field(parts, if Has(indices, "Longitude") then At(indices, "Longitude")
                     else if Has(indices, "Lon") then At(indices, "Lon")
                     else if Has(indices, "Lng") then At(indices, "Lng") else -1)
      else [];
    CsvRecord(icao, name, OrZero(parse(latS)), OrZero(parse(lonS)))
  }

  /** The column a coordinate is read from: the first of its aliases that
      the header has. */
  function Column(indices: map<string, nat>, aliases: seq<string>): Option<nat> {
    if aliases == [] then None
    else if Has(indices, aliases[0]) then Some(At(indices, aliases[0]))
    else Column(indices, aliases[1..])
  }

  /** The value a row gives for a column, or empty when the header lacks it. */
  function ValueIn(parts: seq<string>, column: Option<nat>): string {
    if column.Some? then Field(parts, column.value) else []
  }

  /** Each field comes from its own column of the line, trimmed; a field whose
      column the header lacks, or that the line is too short to reach, is
      empty; latitude prefers `Latitude` to `Lat` and longitude prefers
      `Longitude` to `Lon` to `Lng`; a coordinate that does not parse is zero. */
  lemma RowFields(indices: map<string, nat>, line: string, parse: string -> Option<real>)
    ensures var r := ParseRow(indices, line, parse);
      var parts := Split(line, ',');
      r.icao == ValueIn(parts, Column(indices, ["ICAO"])) &&
      r.name == ValueIn(parts, Column(indices, ["Name"])) &&
      r.latitude == OrZero(parse(ValueIn(parts, Column(indices, ["Latitude", "Lat"])))) &&
      r.longitude == OrZero(parse(ValueIn(parts, Column(indices, ["Longitude", "Lon", "Lng"]))))
  {
    assert ["ICAO"][1..] == [] && ["Name"][1..] == [];
    assert ["Latitude", "Lat"][1..] == ["Lat"] && ["Lat"][1..] == [];
    assert ["Longitude", "Lon", "Lng"][1..] == ["Lon", "Lng"];
    assert ["Lon", "Lng"][1..] == ["Lng"] && ["Lng"][1..] == [];
    assert Column(indices, ["Lng"]) == if Has(indices, "Lng") then Some(At(indices, "Lng")) else None;
    assert Column(indices, ["Lon", "Lng"]) ==
      if Has(indices, "Lon") then Some(At(indices, "Lon")) else Column(indices, ["Lng"]);
    assert Column(indices, ["Lat"]) == if Has(indices, "Lat") then Some(At(indices, "Lat")) else None;
  }

  /** A coordinate column that the header lacks, that the line is too short
      to reach, or that holds only white space reads as zero, because
      `double.TryParse` rejects the empty string. */
  lemma {:induction false} AbsentCoordinateIsZero(indices: map<string, nat>, line: string, parse: string -> Option<real>)
    requires parse([]) == None
    ensures var r := ParseRow(indices, line, parse);
      var parts := Split(line, ',');
      var lat := Column(indices, ["Latitude", "Lat"]);
      var lon := Column(indices, ["Longitude", "Lon", "Lng"]);
      ((lat.None? || lat.value >= |parts| || IsBlank(parts[lat.value])) ==> r.latitude == 0.0) &&
      ((lon.None? || lon.value >= |parts| || IsBlank(parts[lon.value])) ==> r.longitude == 0.0)
  {
    RowFields(indices, line, parse);
  }

  /** A field neither starts nor ends with white space. */
  predicate Trimmed(f: string) {
    f != [] ==> !IsWhiteSpace(f[0]) && !IsWhiteSpace(f[|f| - 1])
  }

  /** Identifier and name never start or end with white space. */
  lemma RowFieldsTrimmed(indices: map<string, nat>, line: string, parse: string -> Option<real>)
    ensures Trimmed(ParseRow(indices, line, parse).icao)
    ensures Trimmed(ParseRow(indices, line, parse).name)
  {
  }

  /** The records the row loop collects from the data lines `rows`, skipping
      blank lines. */
  function Records(indices: map<string, nat>, rows: seq<string>, parse: string -> Option<real>): seq<CsvRecord> {
    if rows == [] then []
    else
      var last := rows[|rows| - 1];
      Records(indices, rows[..|rows| - 1], parse) + (if IsBlank(last) then [] else [ParseRow(indices, last, parse)])
  }

  /** The data lines that are not blank, in file order. */
  function NonBlank(rows: seq<string>): seq<string> {
    if rows == [] then []
    else NonBlank(rows[..|rows| - 1]) + (if IsBlank(rows[|rows| - 1]) then [] else [rows[|rows| - 1]])
  }

  /** Whole file: the header is the first line, every later non-blank line is
      one record. A file without lines has no records. */
  function ParseCsv(lines: seq<string>, parse: string -> Option<real>): seq<CsvRecord> {
    if lines == [] then [] else Records(HeaderIndex(Split(lines[0], ',')), lines[1..], parse)
  }

  /** One record per non-blank data line, in order, each parsed from its line. */
  lemma {:induction false} RecordsFollowLines(indices: map<string, nat>, rows: seq<string>, parse: string -> Option<real>)
    ensures |Records(indices, rows, parse)| == |NonBlank(rows)|
    ensures forall k :: 0 <= k < |NonBlank(rows)| ==>
      Records(indices, rows, parse)[k] == ParseRow(indices, NonBlank(rows)[k], parse)
  {
    if rows != [] {
      RecordsFollowLines(indices, rows[..|rows| - 1], parse);
    }
  }

  /** The non-blank lines are exactly the lines that are not blank. */
  lemma {:induction false} NonBlankMembers(rows: seq<string>)
    ensures |NonBlank(rows)| <= |rows|
    ensures forall line :: line in NonBlank(rows) <==> line in rows && !IsBlank(line)
  {
    if rows != [] {
      var front := rows[..|rows| - 1];
      NonBlankMembers(front);
      assert rows == front + [rows[|rows| - 1]];
    }
  }

  /** The progress the row loop reports: after the record of data line `k`
      (counting from 0), `(k + 1) / max(1, total)`. */
  function CsvProgress(rows: seq<string>, total: nat): seq<real> {
    if rows == [] then []
    else
      CsvProgress(rows[..|rows| - 1], total) +
      (if IsBlank(rows[|rows| - 1]) then [] else [|rows| as real / AtLeastOne(total) as real])
  }

  /** One report per record, every one in (0, 1], rising. */
  lemma {:induction false} CsvProgressBounds(rows: seq<string>, total: nat)
    requires |rows| <= total
    ensures |CsvProgress(rows, total)| == |NonBlank(rows)|
    ensures forall k :: 0 <= k < |CsvProgress(rows, total)| ==>
      0.0 < CsvProgress(rows, total)[k] <= 1.0
    ensures forall j, k :: 0 <= j < k < |CsvProgress(rows, total)| ==>
      CsvProgress(rows, total)[j] < CsvProgress(rows, total)[k]
  {
    if rows != [] {
      var front := rows[..|rows| - 1];
      CsvProgressBounds(front, total);
      var p := CsvProgress(front, total);
      var n := AtLeastOne(total);
      FractionBounds(|rows|, n);
      forall k | 0 <= k < |p|
        ensures p[k] < |rows| as real / n as real
      {
        ProgressBelowCount(front, total, k);
        FractionMonotone(|front|, |rows|, n);
      }
    }
  }

  lemma {:induction false} ProgressBelowCount(rows: seq<string>, total: nat, k: nat)
    requires k < |CsvProgress(rows, total)|
    ensures CsvProgress(rows, total)[k] <= |rows| as real / AtLeastOne(total) as real
  {
    var front := rows[..|rows| - 1];
    var n := AtLeastOne(total);
    if k < |CsvProgress(front, total)| {
      ProgressBelowCount(front, total, k);
      FractionMonotone(|front|, |rows|, n);
    }
  }

  lemma FractionBounds(k: int, n: int)
    requires 0 <= k <= n && n > 0
    ensures 0.0 <= k as real / n as real <= 1.0
    ensures k < n ==> k as real / n as real < 1.0
    ensures k > 0 ==> k as real / n as real > 0.0
  {
  }

  lemma FractionMonotone(j: int, k: int, n: int)
    requires j < k && n > 0
    ensures j as real / n as real < k as real / n as real
  {
  }

  /** The lines of the helipad list, or none when no path is set or no such
      file exists (`file` is `None`). */
  function CsvLines(csvPath: string, file: Option<seq<string>>): seq<string> {
    if IsBlank(csvPath) || file.None? then [] else file.value
  }

  /** A record as the parser creates it from `rec` at time `now`. */
  predicate Describes(h: Helipad, rec: CsvRecord, now: Timestamp)
    reads h
  {
    h.icao == rec.icao && h.name == rec.name && h.latitude == rec.latitude &&
    h.longitude == rec.longitude && h.Matching() == Unmatched && h.lastScanTimestamp == now
  }

  /** What the parser produced from data lines `rows`: one fresh record per
      entry of `recs`, in order, no record twice. */
  twostate predicate Produced(new result: seq<Helipad>, recs: seq<CsvRecord>, now: Timestamp)
    reads result
  {
    |result| == |recs| &&
    (forall k :: 0 <= k < |result| ==> fresh(result[k]) && Describes(result[k], recs[k], now)) &&
    (forall j, k :: 0 <= j < k < |result| ==> result[j] != result[k])
  }

  lemma RecordsSnoc(indices: map<string, nat>, rows: seq<string>, j: nat, total: nat, parse: string -> Option<real>)
    requires j < |rows|
    ensures Records(indices, rows[..j + 1], parse) ==
      Records(indices, rows[..j], parse) + (if IsBlank(rows[j]) then [] else [ParseRow(indices, rows[j], parse)])
    ensures CsvProgress(rows[..j + 1], total) == CsvProgress(rows[..j], total) +
      (if IsBlank(rows[j]) then [] else [(j + 1) as real / AtLeastOne(total) as real])
  {
    assert rows[..j + 1][..j] == rows[..j];
  }

  /** A new record for `rec`, stamped `now`. */
  method NewRecord(rec: CsvRecord, now: Timestamp) returns (hel: Helipad)
    ensures fresh(hel) && Describes(hel, rec, now)
  {
    hel := new Helipad(now);
    hel.icao, hel.name, hel.latitude, hel.longitude := rec.icao, rec.name, rec.latitude, rec.longitude;
  }

  /** The row loop over the data lines `rows` (the lines after the header).
      A cancelled scan stops before the first data line. */
  method ReadRows(indices: map<string, nat>, rows: seq<string>, parse: string -> Option<real>,
                  now: Timestamp, cancelled: bool)
    returns (outcome: Scan<seq<Helipad>>, progress: seq<real>)
    ensures outcome.Cancelled? <==> cancelled && rows != []
    ensures outcome.Completed? ==>
      Produced(outcome.value, Records(indices, rows, parse), now) &&
      progress == CsvProgress(rows, |rows|)
  {
    progress := [];
    var result: seq<Helipad> := [];
    ghost var recs: seq<CsvRecord> := [];
    for j := 0 to |rows|
      invariant recs == Records(indices, rows[..j], parse)
      invariant Produced(result, recs, now)
      invariant progress == CsvProgress(rows[..j], |rows|)
      invariant !cancelled || j == 0
    {
      if cancelled {
        return Cancelled, progress;
      }
      RecordsSnoc(indices, rows, j, |rows|, parse);
      var line := rows[j];
      if IsBlank(line) {
        continue;
      }
      var rec := ParseRow(indices, line, parse);
      var hel := NewRecord(rec, now);
      assert hel !in result;
      result := result + [hel];
      recs := recs + [rec];
      progress := progress + [(j + 1) as real / AtLeastOne(|rows|) as real];
    }
    assert rows[..|rows|] == rows;
    outcome := Completed(result);
  }

  /** `ScanCsvAsync`: one fresh record per non-blank data line. Reading the
      file observes the cancellation token, so a cancelled scan of an
      existing file stops before its lines are looked at, whatever they are;
      a blank path or a missing file returns before anything is read. */
  method ScanCsv(csvPath: string, file: Option<seq<string>>, parse: string -> Option<real>,
                 now: Timestamp, cancelled: bool)
    returns (outcome: Scan<seq<Helipad>>, progress: seq<real>)
    ensures var lines := CsvLines(csvPath, file);
      (outcome.Cancelled? <==> cancelled && !IsBlank(csvPath) && file.Some?) &&
      (outcome.Completed? ==>
        Produced(outcome.value, ParseCsv(lines, parse), now) &&
        progress == (if lines == [] then [] else CsvProgress(lines[1..], |lines| - 1)))
  {
    if IsBlank(csvPath) || file.None? {
      return Completed([]), [];
    }
    if cancelled {
      return Cancelled, [];
    }
    var lines := file.value;
    if |lines| == 0 {
      return Completed([]), [];
    }
    var indices := BuildHeaderIndex(Split(lines[0], ','));
    outcome, progress := ReadRows(indices, lines[1..], parse, now, cancelled);
  }

  // ---------------------------------------------------------------------
  // Scenery discovery
  // ---------------------------------------------------------------------

  /** The extension filter of the discovery: `.bgl`, `.bgl.off` or `.off`,
      ignoring case. */
  predicate IsSceneryFile(f: string) {
    EndsWithIgnoreCase(f, ".bgl") || EndsWithIgnoreCase(f, ".bgl.off") || EndsWithIgnoreCase(f, ".off")
  }

  /** `.bgl.off` adds nothing: a file passes exactly when it ends with `.bgl`
      or `.off`. */
  lemma SceneryFileSuffixes(f: string)
    ensures IsSceneryFile(f) <==> EndsWithIgnoreCase(f, ".bgl") || EndsWithIgnoreCase(f, ".off")
  {
    if EndsWithIgnoreCase(f, ".bgl.off") {
      var l := Lower(f);
      assert l[|l| - 4..] == l[|l| - 8..][4..];
    }
  }

  /** The files of the recursive enumeration that pass the filter. */
  function SceneryFiles(listing: seq<string>): seq<string> {
    if listing == [] then []
    else
      var last := listing[|listing| - 1];
      SceneryFiles(listing[..|listing| - 1]) + (if IsSceneryFile(last) then [last] else [])
  }

  /** The filter keeps exactly the scenery files. */
  lemma {:induction false} SceneryFilesMembers(listing: seq<string>)
    ensures forall f :: f in SceneryFiles(listing) <==> f in listing && IsSceneryFile(f)
  {
    if listing != [] {
      var front := listing[..|listing| - 1];
      SceneryFilesMembers(front);
      assert listing == front + [listing[|listing| - 1]];
    }
  }

  /** The filter keeps enumeration order: filtering a concatenation
      concatenates the results. */
  lemma {:induction false} SceneryFilesAppend(listing: seq<string>, more: seq<string>)
    ensures SceneryFiles(listing + more) == SceneryFiles(listing) + SceneryFiles(more)
    decreases |more|
  {
    if more == [] {
      assert listing + more == listing;
    } else {
      var front := more[..|more| - 1];
      SceneryFilesAppend(listing, front);
      assert (listing + more)[..|listing + more| - 1] == listing + front;
    }
  }

  /** The progress the discovery loop reports: `i / max(1, n)` before the
      file with index `i` is added. */
  function DiscoveryProgress(n: nat): seq<real> {
    seq(n, i requires 0 <= i < n => i as real / AtLeastOne(n) as real)
  }

  /** Discovery reports rise from 0 and stay below 1. */
  lemma DiscoveryProgressBounds(n: nat)
    ensures forall k :: 0 <= k < n ==> 0.0 <= DiscoveryProgress(n)[k] < 1.0
    ensures n > 0 ==> DiscoveryProgress(n)[0] == 0.0
    ensures forall j, k :: 0 <= j < k < n ==> DiscoveryProgress(n)[j] < DiscoveryProgress(n)[k]
  {
    var d := AtLeastOne(n);
    forall k | 0 <= k < n
      ensures 0.0 <= DiscoveryProgress(n)[k] < 1.0
    {
      FractionBounds(k, d);
    }
    forall j, k | 0 <= j < k < n
      ensures DiscoveryProgress(n)[j] < DiscoveryProgress(n)[k]
    {
      FractionMonotone(j, k, d);
    }
  }

  /** `FindBglFilesAsync`: the scenery files under the folder in enumeration
      order, or none when the folder path is blank or no such directory
      exists (`listing` is `None`). */
  method FindBglFiles(folder: string, listing: Option<seq<string>>, cancelled: bool)
    returns (outcome: Scan<seq<string>>, progress: seq<real>)
    ensures IsBlank(folder) || listing.None? ==> outcome == Completed([]) && progress == []
    ensures !IsBlank(folder) && listing.Some? ==>
      var all := SceneryFiles(listing.value);
      (outcome.Cancelled? <==> cancelled && |all| > 0) &&
      (outcome.Completed? ==> outcome.value == all && progress == DiscoveryProgress(|all|))
  {
    progress := [];
    if IsBlank(folder) || listing.None? {
      return Completed([]), progress;
    }
    var all := SceneryFiles(listing.value);
    var total := AtLeastOne(|all|);
    var files: seq<string> := [];
    for i := 0 to |all|
      invariant files == all[..i]
      invariant progress == DiscoveryProgress(|all|)[..i]
      invariant !cancelled || i == 0
    {
      if cancelled {
        return Cancelled, progress;
      }
      files := files + [all[i]];
      progress := progress + [i as real / total as real];
    }
    assert all[..|all|] == all;
    assert DiscoveryProgress(|all|)[..|all|] == DiscoveryProgress(|all|);
    outcome := Completed(files);
  }

  // ---------------------------------------------------------------------
  // Matching
  // ---------------------------------------------------------------------

  /** The candidate test: the code occurs, ignoring case, in the file name
      without its extension or in the file name. */
  predicate IsCandidate(code: string, f: string) {
    ContainsIgnoreCase(FileNameWithoutExtension(f), code) || ContainsIgnoreCase(FileName(f), code)
  }

  /** The first half of the test adds nothing: a file is a candidate exactly
      when its name contains the code; the directory never matters. */
  lemma CandidateIffInFileName(code: string, f: string)
    ensures IsCandidate(code, f) <==> ContainsIgnoreCase(FileName(f), code)
  {
    var name := FileName(f);
    var stem := FileNameWithoutExtension(f);
    StemIsPrefix(f);
    if ContainsIgnoreCase(stem, code) {
      LowerSlice(name, 0, |stem|);
      ContainsInPrefix(Lower(stem), Lower(name), Lower(code));
    }
  }

  /** The files, in list order, that are candidates for `code`. */
  function Candidates(code: string, files: seq<string>): seq<string> {
    if files == [] then []
    else
      var last := files[|files| - 1];
      Candidates(code, files[..|files| - 1]) + (if IsCandidate(code, last) then [last] else [])
  }

  /** The candidates are exactly the listed files whose name contains the
      code. */
  lemma {:induction false} CandidatesMembers(code: string, files: seq<string>)
    ensures forall f :: f in Candidates(code, files) <==> f in files && ContainsIgnoreCase(FileName(f), code)
  {
    if files != [] {
      var front, last := files[..|files| - 1], files[|files| - 1];
      CandidatesMembers(code, front);
      CandidateIffInFileName(code, last);
      assert files == front + [last];
    }
  }

  /** Candidates keep list order: the candidates of a concatenation are the
      concatenated candidates. */
  lemma {:induction false} CandidatesAppend(code: string, files: seq<string>, more: seq<string>)
    ensures Candidates(code, files + more) == Candidates(code, files) + Candidates(code, more)
    decreases |more|
  {
    if more == [] {
      assert files + more == files;
    } else {
      var front, last := more[..|more| - 1], more[|more| - 1];
      var one := Candidates(code, [last]);
      assert Candidates(code, files + more) == Candidates(code, files + front) + one by {
        assert files + more == (files + front) + [last];
        CandidatesSnoc(code, files + front, last);
      }
      assert Candidates(code, more) == Candidates(code, front) + one by {
        assert more == front + [last];
        CandidatesSnoc(code, front, last);
      }
      CandidatesAppend(code, files, front);
      Regroup(Candidates(code, files), Candidates(code, front), one);
    }
  }

  lemma CandidatesSnoc(code: string, files: seq<string>, f: string)
    ensures Candidates(code, files + [f]) == Candidates(code, files) + Candidates(code, [f])
  {
    assert (files + [f])[..|files|] == files;
  }

  /** What the matcher does to one record with identifier `icao` that had the
      selection `prior`: its candidates are cleared; a blank identifier stops
      there; otherwise the first candidate is selected and the record is
      enabled unless that file ends with `.off`, and with no candidate
      nothing is selected and the record is disabled. */
  function MatchRecord(icao: string, prior: Selection, files: seq<string>): Selection {
    if IsBlank(icao) then prior.(candidates := [])
    else
      var c := Candidates(Trim(icao), files);
      if |c| == 1 then Selection(c, Some(c[0]), !EndsWithIgnoreCase(c[0], ".off"))
      else if |c| > 1 then Selection(c, Some(c[0]), !EndsWithIgnoreCase(c[0], ".off"))
      else Selection([], None, false)
  }

  /** A selection as the record's own comments describe it: something is selected exactly
      when there are candidates, the selection is the first of them, and the
      record is enabled exactly when a file is selected whose name does not
      end with `.off`. */
  predicate Consistent(s: Selection) {
    (s.path.Some? <==> s.candidates != []) &&
    (s.path.Some? ==> s.path.value == s.candidates[0]) &&
    (s.enabled <==> s.path.Some? && !FileServices.IsDisabledPath(s.path.value))
  }

  /** Matching a record with an identifier leaves it consistent, whatever it
      held before; one with a blank identifier keeps its selected file and
      enabled flag and loses its candidates. */
  lemma MatchRecordConsistent(icao: string, prior: Selection, files: seq<string>)
    ensures !IsBlank(icao) ==> Consistent(MatchRecord(icao, prior, files))
    ensures !IsBlank(icao) ==> MatchRecord(icao, prior, files).candidates == Candidates(Trim(icao), files)
    ensures IsBlank(icao) ==> MatchRecord(icao, prior, files) == Selection([], prior.path, prior.enabled)
  {
  }

  /** A record the parser just created is left consistent by the matcher. */
  lemma MatchFreshRecordConsistent(icao: string, files: seq<string>)
    ensures Consistent(MatchRecord(icao, Unmatched, files))
  {
  }

  /** Matching twice against the same files changes nothing more. */
  lemma MatchRecordIdempotent(icao: string, prior: Selection, files: seq<string>)
    ensures MatchRecord(icao, MatchRecord(icao, prior, files), files) == MatchRecord(icao, prior, files)
  {
  }

  /** The folder of the matcher's unit example. */
  const ExampleFolder := "C:\\Community\\scenery\\"

  /** The matcher's unit example: of a helipad scenery file and an unrelated
      one, only the first is a candidate for `KABC`, and it is selected and
      enabled. */
  lemma MatchingExample()
    ensures var files := [ExampleFolder + "kabc_helipad.bgl", ExampleFolder + "other.bgl"];
      MatchRecord("KABC", Unmatched, files) == Selection([files[0]], Some(files[0]), true)
  {
    var files := [ExampleFolder + "kabc_helipad.bgl", ExampleFolder + "other.bgl"];
    ExampleCode();
    ExampleCandidate();
    ExampleNonCandidate();
    ExampleEnabled();
    assert files[..1] == [files[0]] && files[..1][..0] == [];
    assert Candidates("KABC", files[..1]) == [files[0]];
  }

  lemma ExampleEnabled()
    ensures !EndsWithIgnoreCase(ExampleFolder + "kabc_helipad.bgl", ".off")
  {
    var f := ExampleFolder + "kabc_helipad.bgl";
    assert f[|f| - 1] == 'l';
    assert Lower(f)[|f| - 1] == 'l';
    assert Lower(".off")[3] == 'f';
  }

  lemma ExampleCode()
    ensures !IsBlank("KABC") && Trim("KABC") == "KABC" && Lower("KABC") == "kabc"
  {
    assert !IsWhiteSpace("KABC"[0]);
    assert TrimStart("KABC") == "KABC";
    assert TrimEnd("KABC") == "KABC";
  }

  lemma ExampleFileName(name: string)
    requires '\\' !in name && '/' !in name
    ensures FileName(ExampleFolder + name) == name
  {
    forall i | 0 <= i < |name|
      ensures !IsSeparator(name[i])
    {
      assert name[i] in name;
    }
    assert FileName(ExampleFolder) == [];
    FileNameAppend(ExampleFolder, name);
  }

  lemma ExampleCandidate()
    ensures IsCandidate("KABC", ExampleFolder + "kabc_helipad.bgl")
  {
    var a := "kabc_helipad.bgl";
    ExampleFileName(a);
    ExampleCode();
    LowerOfFolded(a);
    assert a[..4] == "kabc";
  }

  lemma ExampleNonCandidate()
    ensures !IsCandidate("KABC", ExampleFolder + "other.bgl")
  {
    CandidateIffInFileName("KABC", ExampleFolder + "other.bgl");
    ExampleNotInName();
  }

  lemma ExampleNotInName()
    ensures !ContainsIgnoreCase(FileName(ExampleFolder + "other.bgl"), "KABC")
  {
    var b := "other.bgl";
    assert 'k' !in b;
    ExampleFileName(b);
    ExampleCode();
    LowerOfFolded(b);
    ContainsHead(b, "kabc");
  }

  /** A line of four comma-separated fields. */
  function FourFields(f: seq<string>): string
    requires |f| == 4
  {
    f[0] + [','] + f[1] + [','] + f[2] + [','] + f[3]
  }

  /** The shape of the parser's unit example: under a header whose four
      cells read `ICAO`, `Name`, `Latitude` and `Longitude` (in any case,
      with any surrounding white space), two lines of four trimmed,
      comma-free fields, the first field not empty, give two records, in file
      order, each made of its own line's fields. */
  lemma CsvExample(header: seq<string>, a: seq<string>, b: seq<string>, parse: string -> Option<real>)
    requires |header| == 4 && |a| == 4 && |b| == 4
    requires HeaderKey(header[0]) == "icao" && HeaderKey(header[1]) == "name"
    requires HeaderKey(header[2]) == "latitude" && HeaderKey(header[3]) == "longitude"
    requires forall i :: 0 <= i < 4 ==> ',' !in header[i] && ',' !in a[i] && ',' !in b[i]
    requires forall i :: 0 <= i < 4 ==> Trimmed(a[i]) && Trimmed(b[i])
    requires a[0] != [] && b[0] != []
    ensures var r := ParseCsv([FourFields(header), FourFields(a), FourFields(b)], parse);
      |r| == 2 &&
      r[0] == CsvRecord(a[0], a[1], OrZero(parse(a[2])), OrZero(parse(a[3]))) &&
      r[1] == CsvRecord(b[0], b[1], OrZero(parse(b[2])), OrZero(parse(b[3])))
  {
    var indices := map["icao" := 0, "name" := 1, "latitude" := 2, "longitude" := 3];
    var rows := [FourFields(a), FourFields(b)];
    assert [FourFields(header), FourFields(a), FourFields(b)] == [FourFields(header)] + rows;
    FourColumnFile(header, rows, parse);
    assert rows[0][0] == a[0][0] && rows[1][0] == b[0][0];
    TwoRecords(indices, rows, parse);
    FourFieldRow(a, parse);
    FourFieldRow(b, parse);
  }

  /** A file whose header has the four columns reads its data lines under them. */
  lemma FourColumnFile(header: seq<string>, rows: seq<string>, parse: string -> Option<real>)
    requires |header| == 4 && forall i :: 0 <= i < 4 ==> ',' !in header[i]
    requires HeaderKey(header[0]) == "icao" && HeaderKey(header[1]) == "name"
    requires HeaderKey(header[2]) == "latitude" && HeaderKey(header[3]) == "longitude"
    ensures ParseCsv([FourFields(header)] + rows, parse) ==
      Records(map["icao" := 0, "name" := 1, "latitude" := 2, "longitude" := 3], rows, parse)
  {
    SplitFour(header);
    FourColumnHeader(header);
    assert ([FourFields(header)] + rows)[1..] == rows;
  }

  /** Two data lines, each starting with something other than white space,
      give two records. */
  lemma TwoRecords(indices: map<string, nat>, rows: seq<string>, parse: string -> Option<real>)
    requires |rows| == 2 && rows[0] != [] && rows[1] != []
    requires !IsWhiteSpace(rows[0][0]) && !IsWhiteSpace(rows[1][0])
    ensures Records(indices, rows, parse) == [ParseRow(indices, rows[0], parse), ParseRow(indices, rows[1], parse)]
  {
    assert rows[..1] == [rows[0]] && rows[..1][..0] == [];
    assert Records(indices, rows[..1], parse) == [ParseRow(indices, rows[0], parse)];
  }

  /** The header loop over the four columns of the example. */
  lemma FourColumnHeader(header: seq<string>)
    requires |header| == 4
    requires HeaderKey(header[0]) == "icao" && HeaderKey(header[1]) == "name"
    requires HeaderKey(header[2]) == "latitude" && HeaderKey(header[3]) == "longitude"
    ensures HeaderIndex(header) == map["icao" := 0, "name" := 1, "latitude" := 2, "longitude" := 3]
  {
    assert header[..1][..0] == [];
    assert HeaderIndex(header[..1]) == map["icao" := 0];
    assert header[..2][..1] == header[..1];
    assert HeaderIndex(header[..2]) == map["icao" := 0, "name" := 1];
    assert header[..3][..2] == header[..2];
    assert HeaderIndex(header[..3]) == map["icao" := 0, "name" := 1, "latitude" := 2];
    assert header[..3] == header[..|header| - 1];
  }

  /** A line of four comma-free fields splits into those fields. */
  lemma SplitFour(f: seq<string>)
    requires |f| == 4 && forall i :: 0 <= i < 4 ==> ',' !in f[i]
    ensures Split(FourFields(f), ',') == f
  {
    assert Join(f, ',') == FourFields(f) by {
      assert Join(f[3..], ',') == f[3];
      assert Join(f[2..], ',') == f[2] + [','] + f[3];
      assert Join(f[1..], ',') == f[1] + [','] + f[2] + [','] + f[3];
    }
    SplitJoin(f, ',');
  }

  /** A field that neither starts nor ends with white space is its own trim. */
  lemma TrimmedIsItself(s: string)
    requires Trimmed(s)
    ensures Trim(s) == s
  {
  }

  /** A line of four trimmed, comma-free fields under the four-column header. */
  lemma FourFieldRow(f: seq<string>, parse: string -> Option<real>)
    requires |f| == 4 && forall i :: 0 <= i < 4 ==> ',' !in f[i] && Trimmed(f[i])
    ensures ParseRow(map["icao" := 0, "name" := 1, "latitude" := 2, "longitude" := 3], FourFields(f), parse) ==
      CsvRecord(f[0], f[1], OrZero(parse(f[2])), OrZero(parse(f[3])))
  {
    SplitFour(f);
    TrimmedIsItself(f[0]);
    TrimmedIsItself(f[1]);
    TrimmedIsItself(f[2]);
    TrimmedIsItself(f[3]);
    ColumnNames();
  }

  lemma ColumnNames()
    ensures Lower("ICAO") == "icao" && Lower("Name") == "name"
    ensures Lower("Latitude") == "latitude" && Lower("Longitude") == "longitude"
  {
    assert Lower("ICAO") == "icao";
    assert Lower("Name") == "name";
    assert Lower("Latitude") == "latitude";
    assert Lower("Longitude") == "longitude";
  }

  /** The matcher for one record. */
  method MatchOne(hel: Helipad, files: seq<string>)
    modifies hel`candidateSceneryFiles, hel`sceneryFilePath, hel`isEnabled
    ensures hel.Matching() == MatchRecord(hel.icao, old(hel.Matching()), files)
  {
    hel.candidateSceneryFiles := [];
    if IsBlank(hel.icao) {
      return;
    }
    var code := Trim(hel.icao);
    for j := 0 to |files|
      invariant hel.candidateSceneryFiles == Candidates(code, files[..j])
    {
      assert files[..j + 1][..j] == files[..j];
      var f := files[j];
      if ContainsIgnoreCase(FileNameWithoutExtension(f), code) || ContainsIgnoreCase(FileName(f), code) {
        hel.candidateSceneryFiles := hel.candidateSceneryFiles + [f];
      }
    }
    assert files[..|files|] == files;
    if |hel.candidateSceneryFiles| == 1 {
      hel.sceneryFilePath := Some(hel.candidateSceneryFiles[0]);
      hel.isEnabled := !EndsWithIgnoreCase(hel.sceneryFilePath.value, ".off");
    } else if |hel.candidateSceneryFiles| > 1 {
      hel.sceneryFilePath := Some(hel.candidateSceneryFiles[0]);
      hel.isEnabled := !EndsWithIgnoreCase(hel.sceneryFilePath.value, ".off");
    } else {
      hel.sceneryFilePath := None;
      hel.isEnabled := false;
    }
  }

  /** `MatchHelipadsToBglsAsync`: every record in the list is matched, in
      place, against the files, and the same list is returned. A record that
      appears twice ends as if matched once. */
  method MatchHelipadsToBgls(helipads: seq<Helipad>, files: seq<string>) returns (matched: seq<Helipad>)
    modifies (set h | h in helipads)`candidateSceneryFiles, (set h | h in helipads)`sceneryFilePath,
      (set h | h in helipads)`isEnabled
    ensures matched == helipads
    ensures forall h :: h in helipads ==> h.Matching() == MatchRecord(h.icao, old(h.Matching()), files)
  {
    for i := 0 to |helipads|
      invariant forall h :: h in helipads[..i] ==> h.Matching() == MatchRecord(h.icao, old(h.Matching()), files)
      invariant forall h :: h in helipads && h !in helipads[..i] ==> h.Matching() == old(h.Matching())
    {
      var hel := helipads[i];
      MatchRecordIdempotent(hel.icao, old(hel.Matching()), files);
      MatchOne(hel, files);
      assert helipads[..i + 1] == helipads[..i] + [hel];
    }
    assert helipads[..|helipads|] == helipads;
    matched := helipads;
  }
}
