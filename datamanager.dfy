/** The cell manager's logic (src/DataManager.tsx): reading the uploaded CSV
    into cells, stepping through the cells in id order, replacing the
    selected cell, the per-section areas, and the sample-rate field. */
module DataManager {
  import opened Common
  import opened Text
  import Pipeline
  import Area
  import Export

  /** JavaScript's two string-to-number coercions. `isNaN` on a string
      converts the whole string, `parseFloat` reads a numeric prefix, so the
      two disagree on text such as "12abc"; `None` stands for NaN. */
  datatype JsNumbers = JsNumbers(isNaN: string -> bool, parseFloat: string -> Option<real>)

  // ---------------------------------------------------------------------
  // parseCsv

  /** The error the source throws when a row has more numbers than there
      are records (`records[i]` is undefined). */
  const MissingRecord: string := "records[i] is undefined"

  function DigitChar(d: int): char
    requires 0 <= d < 10
  {
    "0123456789"[d]
  }

  /** A natural number in decimal, as template literals print it. */
  function NatToString(n: nat): (s: string)
    ensures |s| >= 1
    ensures forall i :: 0 <= i < |s| ==> '0' <= s[i] <= '9'
    decreases n
  {
    if n < 10 then [DigitChar(n)] else NatToString(n / 10) + [DigitChar(n % 10)]
  }

  /** The name of column `idx` when the file gives none. */
  function DefaultName(idx: nat): string
  {
    "Cell " + NatToString(idx + 1)
  }

  /** A fresh record: no data yet, baseline 1, included. */
  function NewCell(idx: nat, name: string): Cell
  {
    Cell(idx, name, [], 1.0, false)
  }

  /** Records named by a header row; an empty title gets the default name. */
  function HeaderRecords(cells: seq<string>): (r: seq<Cell>)
    ensures |r| == |cells|
  {
    seq(|cells|, idx requires 0 <= idx < |cells| => NewCell(idx, if |cells[idx]| > 0 then cells[idx] else DefaultName(idx)))
  }

  /** Records for a file without a header row. */
  function DefaultRecords(n: nat): (r: seq<Cell>)
    ensures |r| == n
  {
    seq(n, idx requires 0 <= idx < n => NewCell(idx, DefaultName(idx)))
  }

  /** `cells.some(cell => isNaN(cell))`. */
  predicate HasNonNumber(cells: seq<string>, js: JsNumbers)
  {
    exists i :: 0 <= i < |cells| && js.isNaN(cells[i])
  }

  /** The `filter`/`map` pair: the values of the cells `parseFloat` reads,
      in row order. */
  function NumericValues(cells: seq<string>, js: JsNumbers): (vs: seq<real>)
    ensures |vs| <= |cells|
  {
    if cells == [] then []
    else
      var p := js.parseFloat(cells[0]);
      (if p.Some? then [p.value] else []) + NumericValues(cells[1..], js)
  }

  /** Record `j` after the first `|values|` values have been handed out. */
  function Extended(c: Cell, values: seq<real>, j: int): Cell
  {
    if 0 <= j < |values| then c.(data := c.data + [values[j]]) else c
  }

  /** The `forEach`: the `i`-th value goes to record `i`; a value with no
      record to go to fails. */
  function AppendValues(records: seq<Cell>, values: seq<real>): (r: Result<seq<Cell>, string>)
    ensures r.Ok? <==> |values| <= |records|
  {
    if |values| > |records| then Err(MissingRecord)
    else Ok(seq(|records|, j requires 0 <= j < |records| => Extended(records[j], values, j)))
  }

  /** One line of the file. While there are no records, a line with a
      non-number names the records; otherwise its numbers are appended, to
      default-named records if there were none yet. */
  function ParseLine(records: seq<Cell>, line: string, js: JsNumbers): Result<seq<Cell>, string>
  {
    var cells := Split(line, ',');
    if HasNonNumber(cells, js) && records == [] then Ok(HeaderRecords(cells))
    else AppendValues(if records == [] then DefaultRecords(|cells|) else records, NumericValues(cells, js))
  }

  function ParseLines(lines: seq<string>, js: JsNumbers, records: seq<Cell>): Result<seq<Cell>, string>
  {
    if lines == [] then Ok(records)
    else
      match ParseLine(records, lines[0], js)
      case Err(e) => Err(e)
      case Ok(next) => ParseLines(lines[1..], js, next)
  }

  /** What parseCsv returns for a file, or the error it throws. */
  function ParsedCsv(csv: string, js: JsNumbers): Result<seq<Cell>, string>
  {
    ParseLines(Split(csv, '\n'), js, [])
  }

  /** parseCsv: the lines in order, with `records` reassigned as it goes. */
  method ParseCsv(csv: string, js: JsNumbers) returns (r: Result<seq<Cell>, string>)
    ensures r == ParsedCsv(csv, js)
  {
    var lines := Split(csv, '\n');
    var records: seq<Cell> := [];
    var n := 0;
    while n < |lines|
      invariant 0 <= n <= |lines|
      invariant ParseLines(lines[n..], js, records) == ParsedCsv(csv, js)
    {
      assert lines[n..][0] == lines[n] && lines[n..][1..] == lines[n + 1..];
      var cells := Split(lines[n], ',');
      if HasNonNumber(cells, js) && records == [] {
        records := HeaderRecords(cells);
      } else {
        if records == [] {
          records := DefaultRecords(|cells|);
        }
        var next := AddValues(records, NumericValues(cells, js));
        if next.Err? {
          return Err(next.error);
        }
        records := next.value;
      }
      n := n + 1;
    }
    return Ok(records);
  }

  /** The `forEach` loop: `records[i].data` replaced by a copy with value
      `i` appended. */
  method AddValues(records: seq<Cell>, values: seq<real>) returns (r: Result<seq<Cell>, string>)
    ensures r == AppendValues(records, values)
  {
    var updated := records;
    var i := 0;
    while i < |values|
      invariant 0 <= i <= |values| && i <= |records|
      invariant |updated| == |records|
      invariant forall j :: 0 <= j < |records| ==> updated[j] == Extended(records[j], values[..i], j)
    {
      if i >= |updated| {
        return Err(MissingRecord);
      }
      updated := updated[i := updated[i].(data := updated[i].data + [values[i]])];
      i := i + 1;
    }
    assert values[..i] == values;
    assert updated == AppendValues(records, values).value;
    return Ok(updated);
  }

  /** Two records for the same column: same id, name, baseline and
      exclusion, and the later one's data extends the earlier one's. */
  predicate SameColumn(before: Cell, after: Cell)
  {
    after.id == before.id && after.name == before.name && after.baseline == before.baseline
    && after.excluded == before.excluded && before.data <= after.data
  }

  /** Once records exist, no later line renames or adds a column: every line
      only extends the data. */
  lemma {:induction false} LaterLinesOnlyExtend(lines: seq<string>, js: JsNumbers, records: seq<Cell>)
    requires records != []
    requires ParseLines(lines, js, records).Ok?
    ensures var rs := ParseLines(lines, js, records).value;
      |rs| == |records| && forall j :: 0 <= j < |records| ==> SameColumn(records[j], rs[j])
  {
    if lines != [] {
      var next := ParseLine(records, lines[0], js).value;
      LaterLinesOnlyExtend(lines[1..], js, next);
      var rs := ParseLines(lines, js, records).value;
      forall j | 0 <= j < |records| ensures SameColumn(records[j], rs[j]) {
        assert SameColumn(records[j], next[j]);
        assert SameColumn(next[j], rs[j]);
      }
    }
  }

  /** A first line with a non-number names one record per column, with id
      the column index, the header text or the default name, baseline 1 and
      no exclusion; the header line itself adds no data. */
  lemma HeaderLineNamesColumns(header: string, rest: string, js: JsNumbers)
    requires '\n' !in header
    requires HasNonNumber(Split(header, ','), js)
    requires ParsedCsv(header + "\n" + rest, js).Ok?
    ensures var cols := Split(header, ',');
      var rs := ParsedCsv(header + "\n" + rest, js).value;
      |rs| == |cols| &&
      forall j :: 0 <= j < |cols| ==>
        rs[j].id == j && rs[j].name == (if |cols[j]| > 0 then cols[j] else DefaultName(j))
        && rs[j].baseline == 1.0 && !rs[j].excluded
    ensures var recs := ParsedCsv(header, js);
      recs.Ok? && |recs.value| == |Split(header, ',')| && forall j :: 0 <= j < |recs.value| ==> recs.value[j].data == []
  {
    SplitWithout(header, '\n');
    assert ParseLine([], header, js) == Ok(HeaderRecords(Split(header, ',')));
    assert ParseLines([header], js, []) == ParseLines([], js, HeaderRecords(Split(header, ',')));
    SplitAfterPiece(header, '\n', rest);
    var cols := Split(header, ',');
    assert Split(header + "\n" + rest, '\n')[1..] == Split(rest, '\n');
    LaterLinesOnlyExtend(Split(rest, '\n'), js, HeaderRecords(cols));
  }

  /** A first line of numbers makes one default-named record per column and
      stores its own values, the `i`-th number in record `i`. */
  lemma NumericFirstLineIsData(line: string, rest: string, js: JsNumbers)
    requires '\n' !in line
    requires !HasNonNumber(Split(line, ','), js)
    requires ParsedCsv(line + "\n" + rest, js).Ok?
    ensures var cols := Split(line, ',');
      var vs := NumericValues(cols, js);
      var rs := ParsedCsv(line + "\n" + rest, js).value;
      |rs| == |cols| &&
      forall j :: 0 <= j < |cols| ==>
        rs[j].id == j && rs[j].name == DefaultName(j)
        && (if j < |vs| then [vs[j]] else []) <= rs[j].data
  {
    SplitAfterPiece(line, '\n', rest);
    var cols := Split(line, ',');
    assert Split(line + "\n" + rest, '\n')[1..] == Split(rest, '\n');
    var first := ParseLine([], line, js).value;
    LaterLinesOnlyExtend(Split(rest, '\n'), js, first);
  }

  /** A small stand-in for the two coercions, enough for the examples. */
  function ExampleJs(): JsNumbers
  {
    JsNumbers(s => s != "" && s != "1" && s != "2",
              s => if s == "1" then Some(1.0) else if s == "2" then Some(2.0) else None)
  }

  lemma ExampleSplits()
    ensures Split("a,b\n,2", '\n') == ["a,b", ",2"]
    ensures Split("a,b", ',') == ["a", "b"]
    ensures Split(",2", ',') == ["", "2"]
  {
    assert "a,b\n,2" == "a,b" + "\n" + ",2";
    SplitAfterPiece("a,b", '\n', ",2");
    SplitWithout(",2", '\n');
    assert "a,b" == "a" + "," + "b";
    SplitAfterPiece("a", ',', "b");
    SplitWithout("b", ',');
    assert ",2" == "" + "," + "2";
    SplitAfterPiece("", ',', "2");
    SplitWithout("2", ',');
  }

  /** Values go by their position among a row's numbers, not by column: a
      blank first cell moves the second column's value into the first
      record. */
  lemma BlankCellShiftsValuesLeft()
    ensures ParsedCsv("a,b\n,2", ExampleJs())
         == Ok([Cell(0, "a", [2.0], 1.0, false), Cell(1, "b", [], 1.0, false)])
  {
    var js := ExampleJs();
    ExampleSplits();
    var header := [Cell(0, "a", [], 1.0, false), Cell(1, "b", [], 1.0, false)];
    var final := [Cell(0, "a", [2.0], 1.0, false), Cell(1, "b", [], 1.0, false)];
    assert js.isNaN(["a", "b"][0]);
    assert HeaderRecords(["a", "b"]) == header;
    assert ParseLine([], "a,b", js) == Ok(header);
    assert NumericValues([""], js) == [];
    assert NumericValues(["", "2"], js) == [2.0];
    assert Extended(header[0], [2.0], 0) == final[0];
    assert Extended(header[1], [2.0], 1) == final[1];
    assert AppendValues(header, [2.0]).value == final;
    assert ParseLine(header, ",2", js) == Ok(final);
    assert ParseLines([",2"], js, header) == ParseLines([], js, final);
    assert ["a,b", ",2"][1..] == [",2"];
  }

  /** A row with more numbers than there are records fails. */
  lemma TooManyValuesFails()
    ensures ParsedCsv("a\n1,2", ExampleJs()).Err?
  {
    var js := ExampleJs();
    assert "a\n1,2" == "a" + "\n" + "1,2";
    SplitAfterPiece("a", '\n', "1,2");
    SplitWithout("1,2", '\n');
    SplitWithout("a", ',');
    assert "1,2" == "1" + "," + "2";
    SplitAfterPiece("1", ',', "2");
    SplitWithout("2", ',');
    assert Split("a\n1,2", '\n') == ["a", "1,2"];
    assert Split("1,2", ',') == ["1", "2"];
    assert js.isNaN("a");
    assert NumericValues(["1", "2"], js) == [1.0, 2.0];
  }

  // ---------------------------------------------------------------------
  // mod and the previous / next rule

  function Abs(n: int): nat
  {
    if n < 0 then -n else n
  }

  /** JavaScript's `%`: the remainder takes the sign of the dividend. */
  function JsRem(n: int, m: int): (r: int)
    requires m != 0
    ensures Abs(r) < Abs(m)
    ensures n >= 0 ==> r >= 0
    ensures n < 0 ==> r <= 0
    ensures (n - r) % m == 0
  {
    var q := Abs(n) % Abs(m);
    RemLeavesMultiple(Abs(n), m);
    if n < 0 then
      assert n - -q == -(Abs(n) - q);
      NegatedMultiple(Abs(n) - q, m);
      -q
    else q
  }

  /** What `%` removes from a non-negative number is a multiple of the divisor. */
  lemma RemLeavesMultiple(a: int, m: int)
    requires a >= 0 && m != 0
    ensures (a - a % Abs(m)) % m == 0
  {
    var d := Abs(m);
    var k := a / d;
    assert a - a % d == k * d;
    if m > 0 {
      DivModUnique(k * d, m, k, 0);
    } else {
      assert k * d == (-k) * m + 0;
      NegativeDivisorRem(k * d, m, -k);
    }
  }

  /** A multiple of a negative divisor leaves remainder zero. */
  lemma NegativeDivisorRem(x: int, m: int, q: int)
    requires m < 0 && x == q * m
    ensures x % m == 0
  {
    DivModUnique(x, -m, -q, 0);
    assert x % -m == 0;
  }

  /** A multiple stays a multiple when negated. */
  lemma NegatedMultiple(x: int, m: int)
    requires m != 0 && x % m == 0
    ensures (-x) % m == 0
  {
    var q := x / m;
    assert x == q * m;
    if m > 0 {
      DivModUnique(-x, m, -q, 0);
    } else {
      NegativeDivisorRem(-x, m, -q);
    }
  }

  /** mod: `(n % m + m) % m`. */
  function Mod(n: int, m: int): int
    requires m != 0
  {
    JsRem(JsRem(n, m) + m, m)
  }

  /** A product of a positive factor and a factor of at least one is at
      least the positive factor. */
  lemma MulAtLeast(d: int, m: int)
    requires d >= 1 && m > 0
    ensures d * m >= m
  {
    assert d * m == (d - 1) * m + m;
  }

  /** Quotient and remainder are determined by `n == q * m + r`. */
  lemma DivModUnique(n: int, m: int, q: int, r: int)
    requires m > 0 && 0 <= r < m && n == q * m + r
    ensures n % m == r
  {
    var q0 := n / m;
    var r0 := n % m;
    assert q0 * m + r0 == q * m + r;
    if q0 > q {
      MulAtLeast(q0 - q, m);
      assert false;
    } else if q > q0 {
      MulAtLeast(q - q0, m);
      assert false;
    }
  }

  /** For a positive modulus, mod lands in `[0, m)` and agrees with `n`
      modulo `m`. */
  lemma ModIsEuclidean(n: int, m: int)
    requires m > 0
    ensures 0 <= Mod(n, m) < m
    ensures Mod(n, m) == n % m
  {
    var a := Abs(n);
    var q := a / m;
    var r := a % m;
    assert a == q * m + r;
    if n >= 0 {
      assert JsRem(n, m) == r;
      DivModUnique(r + m, m, 1, r);
      DivModUnique(n, m, q, r);
    } else if r == 0 {
      assert JsRem(n, m) == 0;
      DivModUnique(m, m, 1, 0);
      assert n == (-q) * m + 0;
      DivModUnique(n, m, -q, 0);
    } else {
      assert JsRem(n, m) == -r;
      DivModUnique(m - r, m, 0, m - r);
      assert n == (-q - 1) * m + (m - r);
      DivModUnique(n, m, -q - 1, m - r);
    }
  }

  /** Position of the cell with id `id` in `cells`, or -1; an unselected
      cell (`undefined`) matches nothing. */
  function FindIndex(cells: seq<Cell>, id: Option<int>): (k: int)
    ensures -1 <= k < |cells|
    ensures k >= 0 ==> id.Some? && cells[k].id == id.value && forall j :: 0 <= j < k ==> cells[j].id != id.value
    ensures k == -1 ==> id.None? || forall j :: 0 <= j < |cells| ==> cells[j].id != id.value
  {
    if cells == [] || id.None? then -1
    else if cells[0].id == id.value then 0
    else
      var k := FindIndex(cells[1..], id);
      if k == -1 then -1 else k + 1
  }

  function SelectedId(selected: Option<Cell>): Option<int>
  {
    if selected.None? then None else Some(selected.value.id)
  }

  /** goNext: the cell after the selected one, wrapping past the end; with
      no cells the selection becomes undefined. */
  function GoNext(ordered: seq<Cell>, selected: Option<Cell>): (r: Option<Cell>)
    ensures r.Some? <==> |ordered| > 0
    ensures r.Some? ==> r.value in ordered
  {
    if |ordered| == 0 then None
    else Some(ordered[JsRem(FindIndex(ordered, SelectedId(selected)) + 1, |ordered|)])
  }

  /** goPrevious: the cell before the selected one, through `mod`. */
  function GoPrevious(ordered: seq<Cell>, selected: Option<Cell>): (r: Option<Cell>)
    ensures r.Some? <==> |ordered| > 0
    ensures r.Some? ==> r.value in ordered
  {
    if |ordered| == 0 then None
    else
      var k := FindIndex(ordered, SelectedId(selected)) - 1;
      ModIsEuclidean(k, |ordered|);
      Some(ordered[Mod(k, |ordered|)])
  }

  /** No two cells share an id. */
  predicate DistinctIds(cells: seq<Cell>)
  {
    forall i, j :: 0 <= i < j < |cells| ==> cells[i].id != cells[j].id
  }

  lemma FindIndexOfMember(cells: seq<Cell>, k: int)
    requires DistinctIds(cells) && 0 <= k < |cells|
    ensures FindIndex(cells, Some(cells[k].id)) == k
  {
  }

  /** Next steps one place forward, wrapping from the last cell to the first. */
  lemma NextIsFollowing(ordered: seq<Cell>, k: int)
    requires DistinctIds(ordered) && 0 <= k < |ordered|
    ensures GoNext(ordered, Some(ordered[k])) == Some(ordered[if k + 1 < |ordered| then k + 1 else 0])
  {
    FindIndexOfMember(ordered, k);
    if k + 1 < |ordered| {
      DivModUnique(k + 1, |ordered|, 0, k + 1);
    } else {
      DivModUnique(k + 1, |ordered|, 1, 0);
    }
  }

  /** Previous steps one place back, wrapping from the first cell to the last. */
  lemma PreviousIsPreceding(ordered: seq<Cell>, k: int)
    requires DistinctIds(ordered) && 0 <= k < |ordered|
    ensures GoPrevious(ordered, Some(ordered[k])) == Some(ordered[if k > 0 then k - 1 else |ordered| - 1])
  {
    FindIndexOfMember(ordered, k);
    ModIsEuclidean(k - 1, |ordered|);
    if k > 0 {
      DivModUnique(k - 1, |ordered|, 0, k - 1);
    } else {
      DivModUnique(k - 1, |ordered|, -1, |ordered| - 1);
    }
  }

  /** Previous undoes next and next undoes previous. */
  lemma NextPreviousInverse(ordered: seq<Cell>, k: int)
    requires DistinctIds(ordered) && 0 <= k < |ordered|
    ensures GoPrevious(ordered, GoNext(ordered, Some(ordered[k]))) == Some(ordered[k])
    ensures GoNext(ordered, GoPrevious(ordered, Some(ordered[k]))) == Some(ordered[k])
  {
    NextIsFollowing(ordered, k);
    PreviousIsPreceding(ordered, k);
    var n := if k + 1 < |ordered| then k + 1 else 0;
    var p := if k > 0 then k - 1 else |ordered| - 1;
    PreviousIsPreceding(ordered, n);
    NextIsFollowing(ordered, p);
  }

  /** With nothing selected, next goes to the first cell, while previous
      goes to `mod(-2, n)`, the second-to-last cell when there are at least
      two. */
  lemma NothingSelected(ordered: seq<Cell>)
    requires |ordered| >= 2
    ensures GoNext(ordered, None) == Some(ordered[0])
    ensures GoPrevious(ordered, None) == Some(ordered[|ordered| - 2])
  {
    DivModUnique(0, |ordered|, 0, 0);
    ModIsEuclidean(-2, |ordered|);
    DivModUnique(-2, |ordered|, -1, |ordered| - 2);
  }

  // ---------------------------------------------------------------------
  // orderedCells and updateCell

  predicate SortedById(cells: seq<Cell>)
  {
    forall i, j :: 0 <= i < j < |cells| ==> cells[i].id <= cells[j].id
  }

  /** `c` placed before the first cell whose id is not smaller. */
  function InsertById(c: Cell, sorted: seq<Cell>): (r: seq<Cell>)
    requires SortedById(sorted)
    ensures SortedById(r)
    ensures multiset(r) == multiset(sorted) + multiset{c}
    ensures |r| == |sorted| + 1
    ensures r[0] == c || (sorted != [] && r[0] == sorted[0])
  {
    if sorted == [] || c.id <= sorted[0].id then [c] + sorted
    else
      var rest := InsertById(c, sorted[1..]);
      assert sorted == [sorted[0]] + sorted[1..];
      assert sorted[0].id <= rest[0].id;
      [sorted[0]] + rest
  }

  /** orderedCells: the cells sorted by ascending id, the same cells and
      nothing else. */
  function OrderedCells(cells: seq<Cell>): (r: seq<Cell>)
    ensures SortedById(r)
    ensures multiset(r) == multiset(cells)
  {
    if cells == [] then []
    else
      assert cells == [cells[0]] + cells[1..];
      InsertById(cells[0], OrderedCells(cells[1..]))
  }

  /** The cells whose id differs from `id`, in order. */
  function WithoutId(cells: seq<Cell>, id: int): (r: seq<Cell>)
    ensures forall c :: c in r <==> c in cells && c.id != id
  {
    if cells == [] then []
    else (if cells[0].id == id then [] else [cells[0]]) + WithoutId(cells[1..], id)
  }

  /** updateCell: with nothing selected nothing changes; otherwise the
      selected id's cell is dropped and the updated selection appended, and
      the selection becomes the updated cell. */
  function UpdateCell(cells: seq<Cell>, selected: Option<Cell>, update: Cell -> Cell): (r: (seq<Cell>, Option<Cell>))
    ensures selected.None? ==> r == (cells, selected)
    ensures selected.Some? ==> r.1 == Some(update(selected.value)) && |r.0| >= 1 && r.0[|r.0| - 1] == update(selected.value)
  {
    if selected.None? then (cells, selected)
    else
      var u := update(selected.value);
      (WithoutId(cells, selected.value.id) + [u], Some(u))
  }

  lemma {:induction false} WithoutAbsentId(cells: seq<Cell>, id: int)
    requires forall c :: c in cells ==> c.id != id
    ensures WithoutId(cells, id) == cells
  {
    if cells != [] {
      WithoutAbsentId(cells[1..], id);
      assert cells == [cells[0]] + cells[1..];
    }
  }

  lemma {:induction false} WithoutMemberId(cells: seq<Cell>, sel: Cell)
    requires DistinctIds(cells) && sel in cells
    ensures multiset(WithoutId(cells, sel.id)) == multiset(cells) - multiset{sel}
  {
    assert cells == [cells[0]] + cells[1..];
    if cells[0] == sel {
      forall c | c in cells[1..] ensures c.id != sel.id {
        var j :| 0 <= j < |cells[1..]| && cells[1..][j] == c;
        assert cells[j + 1] == c;
      }
      WithoutAbsentId(cells[1..], sel.id);
    } else {
      assert sel in cells[1..];
      WithoutMemberId(cells[1..], sel);
      assert cells[0].id != sel.id by {
        var j :| 0 <= j < |cells| && cells[j] == sel;
      }
    }
  }

  /** With distinct ids, updateCell swaps the selected cell for its update
      and leaves every other cell as it was. */
  lemma UpdateReplacesOnlySelected(cells: seq<Cell>, sel: Cell, update: Cell -> Cell)
    requires DistinctIds(cells) && sel in cells
    ensures var r := UpdateCell(cells, Some(sel), update);
      multiset(r.0) == multiset(cells) - multiset{sel} + multiset{update(sel)}
      && r.1 == Some(update(sel))
      && (forall c :: c in cells && c.id != sel.id ==> c in r.0)
      && r.0[|r.0| - 1] == update(sel)
  {
    WithoutMemberId(cells, sel);
  }

  // ---------------------------------------------------------------------
  // cellsWithAreas

  datatype SectionArea = SectionArea(section: Section, area: real)

  datatype CellAreas = CellAreas(cell: Cell, sections: seq<SectionArea>)

  /** The processed samples whose time lies in the section, ends included. */
  function SamplesIn(processed: seq<Datum>, s: Section): (r: seq<Datum>)
    ensures forall d :: d in r <==> d in processed && s.start <= d.time <= s.end
  {
    if processed == [] then []
    else
      (if processed[0].time <= s.end && processed[0].time >= s.start then [processed[0]] else [])
      + SamplesIn(processed[1..], s)
  }

  /** Each section with the area of the cell's samples inside it, measured
      against the cell's own baseline. */
  function SectionAreas(processed: seq<Datum>, sections: seq<Section>, baseline: real): (r: seq<SectionArea>)
    ensures |r| == |sections|
  {
    seq(|sections|, k requires 0 <= k < |sections| =>
      SectionArea(sections[k], Area.IntegrateSamples(SamplesIn(processed, sections[k]), baseline)))
  }

  /** The settings under which a cell can be processed. */
  predicate Processable(c: Cell, baselineAdjust: bool, baselineSamples: int, convolution: int)
  {
    convolution >= 1 && Pipeline.BaselineDenominator(c.data, baselineAdjust, baselineSamples) != 0.0
  }

  /** One cell processed and measured over every section. */
  function AreasOf(c: Cell, sections: seq<Section>, baselineAdjust: bool, baselineSamples: int, convolution: int, sampleRate: real): CellAreas
    requires Processable(c, baselineAdjust, baselineSamples, convolution)
  {
    CellAreas(c, SectionAreas(Pipeline.Processed(c.data, baselineAdjust, baselineSamples, convolution, sampleRate), sections, c.baseline))
  }

  /** cellsWithAreas over the ordered cells. */
  function CellsWithAreas(ordered: seq<Cell>, sections: seq<Section>, baselineAdjust: bool, baselineSamples: int, convolution: int, sampleRate: real): (r: seq<CellAreas>)
    requires forall i :: 0 <= i < |ordered| ==> Processable(ordered[i], baselineAdjust, baselineSamples, convolution)
    ensures |r| == |ordered|
    ensures forall i :: 0 <= i < |r| ==> r[i].cell == ordered[i] && |r[i].sections| == |sections|
  {
    seq(|ordered|, i requires 0 <= i < |ordered| => AreasOf(ordered[i], sections, baselineAdjust, baselineSamples, convolution, sampleRate))
  }

  lemma {:induction false} SamplesInKeepsOrder(processed: seq<Datum>, s: Section)
    requires Area.NonDecreasingTimes(processed)
    ensures Area.NonDecreasingTimes(SamplesIn(processed, s))
    ensures forall d :: d in SamplesIn(processed, s) ==> processed[0].time <= d.time
  {
    if processed != [] {
      var rest := processed[1..];
      SamplesInKeepsOrder(rest, s);
      if rest != [] {
        assert processed[0].time <= rest[0].time;
      }
    }
  }

  lemma ProcessedTimesNonDecreasing(c: Cell, baselineAdjust: bool, baselineSamples: int, convolution: int, sampleRate: real)
    requires Processable(c, baselineAdjust, baselineSamples, convolution) && sampleRate >= 0.0
    ensures Area.NonDecreasingTimes(Pipeline.Processed(c.data, baselineAdjust, baselineSamples, convolution, sampleRate))
  {
    var p := Pipeline.Processed(c.data, baselineAdjust, baselineSamples, convolution, sampleRate);
    forall i | 0 <= i < |p| - 1 ensures p[i].time <= p[i + 1].time {
      assert p[i].time == (i as real) * sampleRate;
      assert p[i + 1].time == ((i + 1) as real) * sampleRate;
    }
  }

  /** One entry per cell in the given order, each with one area per section
      in section order; with a non-negative sample rate every area is
      non-negative. */
  lemma CellsWithAreasShape(ordered: seq<Cell>, sections: seq<Section>, baselineAdjust: bool, baselineSamples: int, convolution: int, sampleRate: real)
    requires forall i :: 0 <= i < |ordered| ==> Processable(ordered[i], baselineAdjust, baselineSamples, convolution)
    requires sampleRate >= 0.0
    ensures var r := CellsWithAreas(ordered, sections, baselineAdjust, baselineSamples, convolution, sampleRate);
      forall i :: 0 <= i < |r| ==>
        r[i].cell == ordered[i] && |r[i].sections| == |sections|
        && forall k :: 0 <= k < |sections| ==> r[i].sections[k].section == sections[k] && r[i].sections[k].area >= 0.0
  {
    var r := CellsWithAreas(ordered, sections, baselineAdjust, baselineSamples, convolution, sampleRate);
    forall i, k | 0 <= i < |r| && 0 <= k < |sections| ensures r[i].sections[k].area >= 0.0 {
      var p := Pipeline.Processed(ordered[i].data, baselineAdjust, baselineSamples, convolution, sampleRate);
      ProcessedTimesNonDecreasing(ordered[i], baselineAdjust, baselineSamples, convolution, sampleRate);
      SamplesInKeepsOrder(p, sections[k]);
      Area.AreaNonNegative(SamplesIn(p, sections[k]), ordered[i].baseline);
    }
  }

  /** The table the page shows: one entry per loaded cell, each cell once,
      in non-decreasing id order. */
  lemma AreaTableInIdOrder(cells: seq<Cell>, sections: seq<Section>, baselineAdjust: bool, baselineSamples: int, convolution: int, sampleRate: real)
    requires forall i :: 0 <= i < |cells| ==> Processable(cells[i], baselineAdjust, baselineSamples, convolution)
    ensures var ordered := OrderedCells(cells);
      forall i :: 0 <= i < |ordered| ==> Processable(ordered[i], baselineAdjust, baselineSamples, convolution)
    ensures var ordered := OrderedCells(cells);
      var r := CellsWithAreas(ordered, sections, baselineAdjust, baselineSamples, convolution, sampleRate);
      |r| == |cells| && multiset(ordered) == multiset(cells)
      && (forall i :: 0 <= i < |r| ==> r[i].cell == ordered[i])
      && forall i, j :: 0 <= i < j < |r| ==> r[i].cell.id <= r[j].cell.id
  {
    var ordered := OrderedCells(cells);
    forall i | 0 <= i < |ordered| ensures Processable(ordered[i], baselineAdjust, baselineSamples, convolution) {
      assert ordered[i] in multiset(ordered);
      assert ordered[i] in cells;
    }
  }

  /** The failure of a row that reads a figure the section does not carry. */
  const MissingFigure: string := "TypeError: undefined has no toString"

  /** The export button hands the area table to exportCells as it is. Its
      sections carry a name, bounds and an area but no peak count, peak time
      or peak proportion, and building a row reads all four figures of every
      section of every included cell: the first such read fails. Without such
      a section every included cell has an empty section list and exportCells
      runs as written. */
  function ExportAreaTable(table: seq<CellAreas>, show: real -> string): Result<Option<string>, string>
  {
    if exists i :: 0 <= i < |table| && !table[i].cell.excluded && table[i].sections != [] then Err(MissingFigure)
    else Ok(Export.ExportCsv(seq(|table|, i requires 0 <= i < |table| => Export.CellAndSections(table[i].cell, [])), show))
  }

  /** The export button fails exactly when some section is defined and some
      cell is not excluded; it only produces a file when there are no
      sections, or when every cell is excluded and there is nothing to write. */
  lemma AreaTableExportFails(cells: seq<Cell>, sections: seq<Section>, baselineAdjust: bool, baselineSamples: int, convolution: int, sampleRate: real, show: real -> string)
    requires forall i :: 0 <= i < |cells| ==> Processable(cells[i], baselineAdjust, baselineSamples, convolution)
    ensures var table := CellsWithAreas(cells, sections, baselineAdjust, baselineSamples, convolution, sampleRate);
      ExportAreaTable(table, show).Err? <==> sections != [] && exists i :: 0 <= i < |cells| && !cells[i].excluded
  {
    var table := CellsWithAreas(cells, sections, baselineAdjust, baselineSamples, convolution, sampleRate);
    if sections != [] && exists i :: 0 <= i < |cells| && !cells[i].excluded {
      var i :| 0 <= i < |cells| && !cells[i].excluded;
      assert !table[i].cell.excluded && table[i].sections != [];
    }
  }

  /** A section whose end comes before its start holds no sample and so has
      zero area. */
  lemma ReversedSectionHasZeroArea(processed: seq<Datum>, s: Section, baseline: real)
    requires s.end < s.start
    ensures Area.IntegrateSamples(SamplesIn(processed, s), baseline) == 0.0
  {
    NothingInReversedSection(processed, s);
    Area.FewerThanTwoSamplesIsZero([], baseline);
  }

  lemma {:induction false} NothingInReversedSection(processed: seq<Datum>, s: Section)
    requires s.end < s.start
    ensures SamplesIn(processed, s) == []
  {
    if processed != [] {
      NothingInReversedSection(processed[1..], s);
    }
  }

  // ---------------------------------------------------------------------
  // The sample-rate field

  const InvalidNumber: string := "enter a valid number"
  const NotAboveZero: string := "enter a number above 0"

  /** A character the field accepts: an ASCII digit or a dot. */
  predicate FloatChar(c: char)
  {
    '0' <= c <= '9' || c == '.'
  }

  /** The test `/[^\d\.]/` performs: some character is neither. */
  predicate NotFloat(s: string)
  {
    exists i :: 0 <= i < |s| && !FloatChar(s[i])
  }

  /** The outcome of editing the sample-rate text: the new rate, or the
      error shown. */
  function CheckSampleRate(s: string, js: JsNumbers): (r: Result<real, string>)
    ensures r.Ok? <==> js.parseFloat(s).Some? && !NotFloat(s) && js.parseFloat(s).value > 0.0
    ensures r.Ok? ==> r.value > 0.0 && Some(r.value) == js.parseFloat(s)
    ensures r.Err? ==> (r.error == InvalidNumber <==> js.parseFloat(s).None? || NotFloat(s))
    ensures r.Err? ==> r.error == InvalidNumber || r.error == NotAboveZero
  {
    var parsed := js.parseFloat(s);
    if parsed.None? || NotFloat(s) then Err(InvalidNumber)
    else if parsed.value <= 0.0 then Err(NotAboveZero)
    else Ok(parsed.value)
  }

  /** A leading minus sign fails the character test, so a negative rate is
      reported as not a number rather than as not above zero. */
  lemma MinusSignIsInvalidNumber(s: string, js: JsNumbers)
    requires |s| > 0 && s[0] == '-'
    ensures CheckSampleRate(s, js) == Err(InvalidNumber)
  {
    assert !FloatChar(s[0]);
  }

  /** The sample rate and the error text shown under its field. */
  class SampleRateInput {
    var sampleRate: real
    var error: string

    /** The rate handed to processing is always positive. */
    predicate Valid()
      reads this
    {
      sampleRate > 0.0
    }

    constructor(rate: real)
      requires rate > 0.0
      ensures Valid() && sampleRate == rate && error == ""
    {
      sampleRate := rate;
      error := "";
    }

    /** The effect run when the text changes: an accepted text sets the rate
        and clears the error; a rejected one sets the error and leaves the
        rate alone. */
    method SetSampleRateString(s: string, js: JsNumbers)
      requires Valid()
      modifies this
      ensures Valid()
      ensures CheckSampleRate(s, js).Ok? ==> sampleRate == CheckSampleRate(s, js).value && error == ""
      ensures CheckSampleRate(s, js).Err? ==> sampleRate == old(sampleRate) && error == CheckSampleRate(s, js).error
    {
      var parsed := js.parseFloat(s);
      if parsed.None? || NotFloat(s) {
        error := InvalidNumber;
        return;
      }
      if parsed.value <= 0.0 {
        error := NotAboveZero;
        return;
      }
      sampleRate := parsed.value;
      error := "";
    }
  }
}
