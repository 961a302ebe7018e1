/** Section validation (`findErrorsInSection`), the export file name
    (`updateFilename`) and the CSV text that `exportCells` downloads
    (src/utils.ts). */
module Export {
  import opened Common
  import opened Text

  // ---------------------------------------------------------------------
  // findErrorsInSection

  const EndMissing: string := "end must be specified"
  const StartMissing: string := "start must be specified"
  const StartNotBeforeEnd: string := "start must be before end"

  /** JavaScript truthiness of an optional number: present and non-zero. */
  predicate Truthy(x: Option<real>)
  {
    x.Some? && x.value != 0.0
  }

  /** Position of each message in the order the checks run. */
  function Rank(message: string): int
  {
    if message == EndMissing then 0 else if message == StartMissing then 1 else 2
  }

  /** Messages appear at most once each, in the order the checks run. */
  predicate InCheckOrder(errors: seq<string>)
  {
    forall i, j :: 0 <= i < j < |errors| ==> Rank(errors[i]) < Rank(errors[j])
  }

  /** findErrorsInSection as written: the ordering check runs only when both
      bounds are truthy, so a bound of 0 skips it. */
  function FindErrorsInSection(s: PartialSection): (errors: seq<string>)
    ensures EndMissing in errors <==> s.end.None?
    ensures StartMissing in errors <==> s.start.None?
    ensures StartNotBeforeEnd in errors <==> Truthy(s.start) && Truthy(s.end) && s.start.value >= s.end.value
    ensures forall i :: 0 <= i < |errors| ==> errors[i] in {EndMissing, StartMissing, StartNotBeforeEnd}
    ensures InCheckOrder(errors)
  {
    var errors := if s.end.None? then [EndMissing] else [];
    var errors := errors + (if s.start.None? then [StartMissing] else []);
    errors + (if Truthy(s.start) && Truthy(s.end) && s.start.value >= s.end.value then [StartNotBeforeEnd] else [])
  }

  /** The ordering check as evidently intended: whenever both bounds are
      present, whatever their value. */
  function FindErrorsInSectionIntended(s: PartialSection): (errors: seq<string>)
    ensures EndMissing in errors <==> s.end.None?
    ensures StartMissing in errors <==> s.start.None?
    ensures StartNotBeforeEnd in errors <==> s.start.Some? && s.end.Some? && s.start.value >= s.end.value
    ensures InCheckOrder(errors)
  {
    var errors := if s.end.None? then [EndMissing] else [];
    var errors := errors + (if s.start.None? then [StartMissing] else []);
    errors + (if s.start.Some? && s.end.Some? && s.start.value >= s.end.value then [StartNotBeforeEnd] else [])
  }

  /** A section from 5 s to 0 s passes the check as written, because its end
      is 0 and so falsy, while the intended check rejects it. */
  lemma ZeroBoundSkipsOrderCheck()
    ensures FindErrorsInSection(PartialSection(Some("aCSF"), Some(5.0), Some(0.0))) == []
    ensures FindErrorsInSectionIntended(PartialSection(Some("aCSF"), Some(5.0), Some(0.0))) == [StartNotBeforeEnd]
  {
  }

  /** The two checks differ only on sections with a zero bound. */
  lemma ChecksAgreeOffZero(s: PartialSection)
    requires s.start != Some(0.0) && s.end != Some(0.0)
    ensures FindErrorsInSection(s) == FindErrorsInSectionIntended(s)
  {
  }

  // ---------------------------------------------------------------------
  // updateFilename

  const CsvExtension: string := ".csv"
  const ProcessedSuffix: string := "_processed.csv"

  predicate OccursAt(s: string, pat: string, k: int)
  {
    0 <= k && k + |pat| <= |s| && s[k..k + |pat|] == pat
  }

  /** First occurrence of `pat` in `s` at or after `i`, or -1. */
  function IndexFrom(s: string, pat: string, i: nat): (k: int)
    ensures k == -1 || (i <= k && OccursAt(s, pat, k))
    ensures k == -1 ==> forall j :: i <= j ==> !OccursAt(s, pat, j)
    ensures k >= 0 ==> forall j :: i <= j < k ==> !OccursAt(s, pat, j)
    decreases |s| - i
  {
    if i + |pat| > |s| then -1
    else if s[i..i + |pat|] == pat then i
    else IndexFrom(s, pat, i + 1)
  }

  /** `s.replace(pat, rep)` with a string pattern: only the first occurrence
      is replaced. */
  function ReplaceFirst(s: string, pat: string, rep: string): string
  {
    var k := IndexFrom(s, pat, 0);
    if k < 0 then s else s[..k] + rep + s[k + |pat|..]
  }

  /** updateFilename: drop the first ".csv", wherever it is, then append
      "_processed.csv". */
  function UpdateFilename(filename: string): string
  {
    ReplaceFirst(filename, CsvExtension, "") + ProcessedSuffix
  }

  /** A name with no ".csv" in it only gets the suffix. */
  lemma UpdateFilenameWithoutCsv(filename: string)
    requires forall j :: !OccursAt(filename, CsvExtension, j)
    ensures UpdateFilename(filename) == filename + ProcessedSuffix
  {
  }

  /** The usual case: "b.csv" with no ".csv" inside "b" becomes
      "b_processed.csv". */
  lemma UpdateFilenameReplacesExtension(base: string)
    requires forall j :: !OccursAt(base, CsvExtension, j)
    ensures UpdateFilename(base + CsvExtension) == base + ProcessedSuffix
  {
    var s := base + CsvExtension;
    forall j | 0 <= j < |base| ensures !OccursAt(s, CsvExtension, j) {
      if j + 4 <= |base| {
        assert s[j..j + 4] == base[j..j + 4];
        assert !OccursAt(base, CsvExtension, j);
      } else {
        // the window reaches the '.' at |base|, which ".csv" has only at its head
        assert s[|base|] == '.';
        assert s[j..j + 4][|base| - j] == '.';
      }
    }
    assert OccursAt(s, CsvExtension, |base|);
    assert IndexFrom(s, CsvExtension, 0) == |base|;
    assert s[..|base|] == base;
    assert s[|base| + 4..] == "";
  }

  /** Only the first ".csv" goes, wherever it is, and the suffix is appended. */
  lemma UpdateFilenameDropsFirstOccurrence(f: string, k: nat)
    requires OccursAt(f, CsvExtension, k)
    requires forall j :: 0 <= j < k ==> !OccursAt(f, CsvExtension, j)
    ensures UpdateFilename(f) == f[..k] + f[k + |CsvExtension|..] + ProcessedSuffix
  {
    assert IndexFrom(f, CsvExtension, 0) == k;
  }

  /** On a name whose ".csv" is not the extension, it is that inner ".csv"
      that goes. */
  lemma UpdateFilenameInnerCsv()
    ensures UpdateFilename("a.csv.bak") == "a.bak_processed.csv"
  {
    assert OccursAt("a.csv.bak", CsvExtension, 1);
    assert "a.csv.bak"[0..4][0] == 'a';
    assert IndexFrom("a.csv.bak", CsvExtension, 0) == 1;
  }

  // ---------------------------------------------------------------------
  // exportCells: the CSV text

  /** One section's figures for one cell. */
  datatype SectionStats = SectionStats(section: Section, area: real, peaks: real, totalPeakTime: real, proportionPeakTime: real)

  datatype CellAndSections = CellAndSections(cell: Cell, sections: seq<SectionStats>)

  const DataUriPrefix: string := "data:text/csv;charset=utf-8,"

  /** The cells that are not excluded, in input order. */
  function Included(cs: seq<CellAndSections>): (r: seq<CellAndSections>)
    ensures |r| <= |cs|
    ensures forall i :: 0 <= i < |r| ==> !r[i].cell.excluded
    ensures forall c :: c in r <==> c in cs && !c.cell.excluded
  {
    if cs == [] then []
    else (if cs[0].cell.excluded then [] else [cs[0]]) + Included(cs[1..])
  }

  /** The four column titles of every section name. */
  function HeaderFields(names: seq<string>): seq<string>
  {
    if names == [] then []
    else [names[0] + " area", names[0] + " peaks", names[0] + " peak time", names[0] + " peak proportion"]
         + HeaderFields(names[1..])
  }

  /** The header line: every title in double quotes, comma separated. */
  function HeaderLine(names: seq<string>): string
  {
    "\"Cell Name\",\"" + Join(HeaderFields(names), "\",\"") + "\""
  }

  /** The four figures of every section, rendered by `show`. */
  function StatFields(stats: seq<SectionStats>, show: real -> string): seq<string>
  {
    if stats == [] then []
    else [show(stats[0].area), show(stats[0].peaks), show(stats[0].totalPeakTime), show(stats[0].proportionPeakTime)]
         + StatFields(stats[1..], show)
  }

  /** One row: the cell name, then its figures, comma separated. */
  function Row(c: CellAndSections, show: real -> string): string
  {
    Join([c.cell.name] + StatFields(c.sections, show), ",")
  }

  function Rows(cs: seq<CellAndSections>, show: real -> string): (r: seq<string>)
    ensures |r| == |cs|
  {
    seq(|cs|, i requires 0 <= i < |cs| => Row(cs[i], show))
  }

  function SectionNames(c: CellAndSections): seq<string>
  {
    seq(|c.sections|, i requires 0 <= i < |c.sections| => c.sections[i].section.name)
  }

  /** The text exportCells hands to the download link, or None when every
      cell is excluded and nothing is exported. The section names of the
      header come from the first exported cell. */
  function ExportCsv(cs: seq<CellAndSections>, show: real -> string): Option<string>
  {
    var included := Included(cs);
    if included == [] then None
    else Some(DataUriPrefix + HeaderLine(SectionNames(included[0])) + "\n" + Join(Rows(included, show), "\n"))
  }

  lemma {:induction false} IncludedEmptyIffAllExcluded(cs: seq<CellAndSections>)
    ensures Included(cs) == [] <==> forall i :: 0 <= i < |cs| ==> cs[i].cell.excluded
  {
    if cs != [] {
      IncludedEmptyIffAllExcluded(cs[1..]);
      assert forall i :: 1 <= i < |cs| ==> cs[i] == cs[1..][i - 1];
    }
  }

  /** Nothing is exported exactly when every cell is excluded. */
  lemma ExportNothingIffAllExcluded(cs: seq<CellAndSections>, show: real -> string)
    ensures ExportCsv(cs, show).None? <==> forall i :: 0 <= i < |cs| ==> cs[i].cell.excluded
  {
    IncludedEmptyIffAllExcluded(cs);
  }

  /** Filtering works cell by cell, so the exported cells keep input order. */
  lemma {:induction false} IncludedAppend(a: seq<CellAndSections>, b: seq<CellAndSections>)
    ensures Included(a + b) == Included(a) + Included(b)
  {
    if a == [] {
      assert a + b == b;
    } else {
      assert (a + b)[1..] == a[1..] + b;
      IncludedAppend(a[1..], b);
    }
  }

  /** The header holds four titles per section name, in section order. */
  lemma {:induction false} HeaderFieldsShape(names: seq<string>)
    ensures |HeaderFields(names)| == 4 * |names|
    ensures forall k :: 0 <= k < |names| ==>
      HeaderFields(names)[4 * k..4 * k + 4]
        == [names[k] + " area", names[k] + " peaks", names[k] + " peak time", names[k] + " peak proportion"]
  {
    if names != [] {
      HeaderFieldsShape(names[1..]);
      var h := HeaderFields(names);
      var t := HeaderFields(names[1..]);
      forall k | 0 <= k < |names|
        ensures h[4 * k..4 * k + 4]
          == [names[k] + " area", names[k] + " peaks", names[k] + " peak time", names[k] + " peak proportion"]
      {
        if k > 0 {
          assert h[4 * k..4 * k + 4] == t[4 * (k - 1)..4 * (k - 1) + 4];
          assert names[1..][k - 1] == names[k];
        }
      }
    }
  }

  /** Text that carries no line break. */
  predicate SingleLine(s: string)
  {
    '\n' !in s
  }

  lemma {:induction false} HeaderFieldsSingleLine(names: seq<string>)
    requires forall i :: 0 <= i < |names| ==> SingleLine(names[i])
    ensures forall i :: 0 <= i < |HeaderFields(names)| ==> SingleLine(HeaderFields(names)[i])
  {
    if names != [] {
      HeaderFieldsSingleLine(names[1..]);
    }
  }

  lemma {:induction false} StatFieldsSingleLine(stats: seq<SectionStats>, show: real -> string)
    requires forall x :: SingleLine(show(x))
    ensures forall i :: 0 <= i < |StatFields(stats, show)| ==> SingleLine(StatFields(stats, show)[i])
  {
    if stats != [] {
      StatFieldsSingleLine(stats[1..], show);
    }
  }

  /** The header line has no line break when no section name has one. */
  lemma HeaderSingleLine(names: seq<string>)
    requires forall i :: 0 <= i < |names| ==> SingleLine(names[i])
    ensures SingleLine(DataUriPrefix + HeaderLine(names))
  {
    HeaderFieldsSingleLine(names);
    JoinAvoids(HeaderFields(names), "\",\"", '\n');
  }

  /** A row has no line break when the cell name and the rendered figures
      have none. */
  lemma RowSingleLine(c: CellAndSections, show: real -> string)
    requires forall x :: SingleLine(show(x))
    requires SingleLine(c.cell.name)
    ensures SingleLine(Row(c, show))
  {
    StatFieldsSingleLine(c.sections, show);
    var fields := [c.cell.name] + StatFields(c.sections, show);
    assert forall j :: 0 <= j < |fields| ==> SingleLine(fields[j]);
    JoinAvoids(fields, ",", '\n');
  }

  /** When no cell or section name and no rendered number holds a line
      break, the exported text splits into the header line and then exactly
      one row per non-excluded cell, in input order. */
  lemma ExportLines(cs: seq<CellAndSections>, show: real -> string)
    requires forall x :: SingleLine(show(x))
    requires forall i :: 0 <= i < |cs| ==> SingleLine(cs[i].cell.name)
    requires forall i, k :: 0 <= i < |cs| && 0 <= k < |cs[i].sections| ==> SingleLine(cs[i].sections[k].section.name)
    requires exists i :: 0 <= i < |cs| && !cs[i].cell.excluded
    ensures Included(cs) != []
    ensures ExportCsv(cs, show)
         == Some(Join([DataUriPrefix + HeaderLine(SectionNames(Included(cs)[0]))] + Rows(Included(cs), show), "\n"))
    ensures Split(ExportCsv(cs, show).value, '\n')
         == [DataUriPrefix + HeaderLine(SectionNames(Included(cs)[0]))] + Rows(Included(cs), show)
  {
    IncludedEmptyIffAllExcluded(cs);
    var included := Included(cs);
    IncludedMembers(cs);
    var header := DataUriPrefix + HeaderLine(SectionNames(included[0]));
    var rows := Rows(included, show);
    assert included[0] in cs;
    HeaderSingleLine(SectionNames(included[0]));
    forall i | 0 <= i < |rows| ensures SingleLine(rows[i]) {
      assert included[i] in cs;
      RowSingleLine(included[i], show);
    }
    var lines := [header] + rows;
    assert lines[1..] == rows;
    assert Join(lines, "\n") == header + "\n" + Join(rows, "\n");
    SplitJoin(lines, '\n');
  }

  /** Every exported cell is one of the input cells. */
  lemma {:induction false} IncludedMembers(cs: seq<CellAndSections>)
    ensures forall c :: c in Included(cs) ==> c in cs
  {
    if cs != [] {
      IncludedMembers(cs[1..]);
    }
  }
}
