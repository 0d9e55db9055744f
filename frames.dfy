/**
 * The table the readers return and the annotators change in place: the
 * columns a reader made, the row labels, and the columns assigned later
 * (`df[label] = values`). Also the writer `write_df_to_fasta` and the
 * rank naming `add_name_list_to_MPNN_df`.
 */
module Frames {
  import opened Wrappers
  import opened PyStr
  import opened MpnnReader
  import opened Fasta
  import opened Annotate

  /** The columns a reader creates. */
  datatype Body =
    | MpnnColumns(rows: seq<MpnnRow>)        // T, sample, score, seq_recovery, sequence
    | FastaColumns(sequences: seq<string>)   // sequence; the names are the index

  /** The row labels: positions 0, 1, ... or names. */
  datatype Index = RangeIndex | NameIndex(names: seq<string>)

  datatype Cells = TextCells(texts: seq<string>) | IntCells(ints: seq<int>)

  /** A column assigned after the table was built. */
  datatype Column = Column(key: string, cells: Cells)

  /** The exceptions rank naming raises. */
  datatype RankError =
    | EmptyTable      // IndexError from `df.iloc[-1]`
    | NoSampleColumn  // KeyError from `["sample"]` on a table without that column

  function Height(body: Body): nat {
    match body
    case MpnnColumns(rows) => |rows|
    case FastaColumns(sequences) => |sequences|
  }

  /** The `sequence` column. */
  function SequenceColumn(body: Body): (s: seq<string>)
    ensures |s| == Height(body)
  {
    match body
    case MpnnColumns(rows) => seq(|rows|, i requires 0 <= i < |rows| => rows[i].sequence)
    case FastaColumns(sequences) => sequences
  }

  function CellCount(cells: Cells): nat {
    match cells
    case TextCells(texts) => |texts|
    case IntCells(ints) => |ints|
  }

  function ColumnLabels(cols: seq<Column>): (labels: seq<string>)
    ensures |labels| == |cols|
    ensures forall k :: 0 <= k < |cols| ==> labels[k] == cols[k].key
  {
    if cols == [] then [] else [cols[0].key] + ColumnLabels(cols[1..])
  }

  predicate Distinct<T(==)>(xs: seq<T>) {
    forall i, j :: 0 <= i < j < |xs| ==> xs[i] != xs[j]
  }

  /** The cells of the column labelled `key`, if there is one. */
  function Lookup(cols: seq<Column>, key: string): Option<Cells> {
    if cols == [] then None
    else if cols[0].key == key then Some(cols[0].cells)
    else Lookup(cols[1..], key)
  }

  /** `df[col.key] = col.cells`: overwrites the column of that label where it stands, or appends it. */
  function AssignColumn(cols: seq<Column>, col: Column): seq<Column> {
    if cols == [] then [col]
    else if cols[0].key == col.key then [col] + cols[1..]
    else [cols[0]] + AssignColumn(cols[1..], col)
  }

  /** `set_index(label)` removes the column it turns into the index. */
  function DropColumn(cols: seq<Column>, key: string): seq<Column> {
    if cols == [] then []
    else if cols[0].key == key then DropColumn(cols[1..], key)
    else [cols[0]] + DropColumn(cols[1..], key)
  }

  /** After an assignment its label holds the new cells and every other column is as it was. */
  lemma {:induction false} AssignColumnLookup(cols: seq<Column>, col: Column, key: string)
    ensures Lookup(AssignColumn(cols, col), key) == if key == col.key then Some(col.cells) else Lookup(cols, key)
    decreases |cols|
  {
    if cols != [] && cols[0].key != col.key {
      AssignColumnLookup(cols[1..], col, key);
    }
  }

  /** An assignment keeps the column order: an existing label stays in place, a new one goes last. */
  lemma {:induction false} AssignColumnLabels(cols: seq<Column>, col: Column)
    ensures ColumnLabels(AssignColumn(cols, col)) ==
      if col.key in ColumnLabels(cols) then ColumnLabels(cols) else ColumnLabels(cols) + [col.key]
    decreases |cols|
  {
    if cols != [] && cols[0].key != col.key {
      AssignColumnLabels(cols[1..], col);
      assert ColumnLabels(cols) == [cols[0].key] + ColumnLabels(cols[1..]);
    }
  }

  lemma AssignColumnKeepsDistinct(cols: seq<Column>, col: Column)
    requires Distinct(ColumnLabels(cols))
    ensures Distinct(ColumnLabels(AssignColumn(cols, col)))
  {
    AssignColumnLabels(cols, col);
  }

  lemma {:induction false} AssignColumnCells(cols: seq<Column>, col: Column, n: nat)
    requires forall k :: 0 <= k < |cols| ==> CellCount(cols[k].cells) == n
    requires CellCount(col.cells) == n
    ensures forall k :: 0 <= k < |AssignColumn(cols, col)| ==> CellCount(AssignColumn(cols, col)[k].cells) == n
    decreases |cols|
  {
    if cols != [] && cols[0].key != col.key {
      AssignColumnCells(cols[1..], col, n);
    }
  }

  /** Dropping a column removes exactly that label and keeps the others in order. */
  lemma DropColumnLabels(cols: seq<Column>, key: string)
    requires Distinct(ColumnLabels(cols))
    ensures key !in ColumnLabels(DropColumn(cols, key))
    ensures forall l :: l != key ==> Lookup(DropColumn(cols, key), l) == Lookup(cols, l)
    ensures Distinct(ColumnLabels(DropColumn(cols, key)))
    ensures forall k :: 0 <= k < |DropColumn(cols, key)| ==> DropColumn(cols, key)[k] in cols
  {
    DropColumnRemoves(cols, key);
    forall l | l != key ensures Lookup(DropColumn(cols, key), l) == Lookup(cols, l) {
      DropColumnLookup(cols, key, l);
    }
    DropColumnKeeps(cols, key);
    DropColumnDistinct(cols, key);
  }

  lemma {:induction false} DropColumnRemoves(cols: seq<Column>, key: string)
    ensures key !in ColumnLabels(DropColumn(cols, key))
    decreases |cols|
  {
    if cols != [] {
      DropColumnRemoves(cols[1..], key);
    }
  }

  lemma {:induction false} DropColumnLookup(cols: seq<Column>, key: string, l: string)
    requires l != key
    ensures Lookup(DropColumn(cols, key), l) == Lookup(cols, l)
    decreases |cols|
  {
    if cols != [] {
      DropColumnLookup(cols[1..], key, l);
    }
  }

  lemma {:induction false} DropColumnKeeps(cols: seq<Column>, key: string)
    ensures forall k :: 0 <= k < |DropColumn(cols, key)| ==> DropColumn(cols, key)[k] in cols
    decreases |cols|
  {
    if cols != [] {
      DropColumnKeeps(cols[1..], key);
      assert forall c :: c in cols[1..] ==> c in cols;
    }
  }

  /** The labels left after a drop are labels the columns had. */
  lemma {:induction false} DropColumnLabelsSubset(cols: seq<Column>, key: string)
    ensures forall l :: l in ColumnLabels(DropColumn(cols, key)) ==> l in ColumnLabels(cols)
    decreases |cols|
  {
    if cols != [] {
      DropColumnLabelsSubset(cols[1..], key);
      assert ColumnLabels(cols) == [cols[0].key] + ColumnLabels(cols[1..]);
    }
  }

  lemma DistinctCons<T>(x: T, xs: seq<T>)
    ensures Distinct([x] + xs) <==> x !in xs && Distinct(xs)
  {
    var s := [x] + xs;
    if x !in xs && Distinct(xs) {
      forall i, j | 0 <= i < j < |s| ensures s[i] != s[j] {
        assert s[j] == xs[j - 1];
        if i > 0 {
          assert s[i] == xs[i - 1];
        } else {
          assert xs[j - 1] in xs;
        }
      }
    }
    if Distinct(s) {
      forall i, j | 0 <= i < j < |xs| ensures xs[i] != xs[j] {
        assert xs[i] == s[i + 1] && xs[j] == s[j + 1];
      }
      forall j | 0 <= j < |xs| ensures xs[j] != x {
        assert xs[j] == s[j + 1] && s[0] == x;
      }
    }
  }

  lemma {:induction false} DropColumnDistinct(cols: seq<Column>, key: string)
    requires Distinct(ColumnLabels(cols))
    ensures Distinct(ColumnLabels(DropColumn(cols, key)))
    decreases |cols|
  {
    if cols != [] {
      var first, tail := cols[0].key, ColumnLabels(cols[1..]);
      assert ColumnLabels(cols) == [first] + tail;
      DistinctCons(first, tail);
      DropColumnDistinct(cols[1..], key);
      var rest := DropColumn(cols[1..], key);
      if first != key {
        DropColumnLabelsSubset(cols[1..], key);
        assert ColumnLabels([cols[0]] + rest) == [first] + ColumnLabels(rest);
        DistinctCons(first, ColumnLabels(rest));
      }
    }
  }

  lemma {:induction false} DropColumnCells(cols: seq<Column>, key: string, n: nat)
    requires forall k :: 0 <= k < |cols| ==> CellCount(cols[k].cells) == n
    ensures forall k :: 0 <= k < |DropColumn(cols, key)| ==> CellCount(DropColumn(cols, key)[k].cells) == n
    decreases |cols|
  {
    if cols != [] {
      DropColumnCells(cols[1..], key, n);
    }
  }

  /** Assigning a `name` column of the right height and then dropping it keeps the columns well formed. */
  lemma NameColumnValid(cols: seq<Column>, names: seq<string>, n: nat)
    requires Distinct(ColumnLabels(cols)) && |names| == n
    requires forall k :: 0 <= k < |cols| ==> CellCount(cols[k].cells) == n
    ensures var withName := AssignColumn(cols, Column("name", TextCells(names)));
      && Distinct(ColumnLabels(withName))
      && (forall k :: 0 <= k < |withName| ==> CellCount(withName[k].cells) == n)
      && Distinct(ColumnLabels(DropColumn(withName, "name")))
      && (forall k :: 0 <= k < |DropColumn(withName, "name")| ==> CellCount(DropColumn(withName, "name")[k].cells) == n)
  {
    var col := Column("name", TextCells(names));
    AssignColumnKeepsDistinct(cols, col);
    AssignColumnCells(cols, col, n);
    var withName := AssignColumn(cols, col);
    DropColumnLabels(withName, "name");
    DropColumnCells(withName, "name", n);
  }

  // ---------------------------------------------------------------- rank names

  function RankName(namebase: string, i: nat): string {
    namebase + "_rank" + NatToString(i)
  }

  /** The name list: `<namebase>_rank1` ... `<namebase>_rank<samples>`, then the original's name. */
  function RankNames(namebase: string, originalName: string, samples: nat): (names: seq<string>)
    ensures |names| == samples + 1
    ensures forall k :: 0 <= k < samples ==> names[k] == RankName(namebase, k + 1)
    ensures names[samples] == originalName
  {
    seq(samples, k requires 0 <= k => RankName(namebase, k + 1)) + [originalName]
  }

  lemma RankNameInjective(namebase: string, a: nat, b: nat)
    requires RankName(namebase, a) == RankName(namebase, b)
    ensures a == b
  {
    var p := namebase + "_rank";
    assert RankName(namebase, a)[|p|..] == NatToString(a);
    assert RankName(namebase, b)[|p|..] == NatToString(b);
    NatToStringInjective(a, b);
  }

  /**
   * The rank names are pairwise distinct, so the name list has no repeat
   * exactly when the original's name is not one of them.
   */
  lemma RankNamesDistinct(namebase: string, originalName: string, samples: nat)
    ensures Distinct(RankNames(namebase, originalName, samples)) <==>
      forall k :: 1 <= k <= samples ==> originalName != RankName(namebase, k)
  {
    var names := RankNames(namebase, originalName, samples);
    forall i, j | 0 <= i < j < samples ensures names[i] != names[j] {
      if names[i] == names[j] {
        RankNameInjective(namebase, i + 1, j + 1);
      }
    }
    if !Distinct(names) {
      var i, j :| 0 <= i < j < |names| && names[i] == names[j];
      assert j == samples && names[i] == RankName(namebase, i + 1);
    }
    if exists k :: 1 <= k <= samples && originalName == RankName(namebase, k) {
      var k :| 1 <= k <= samples && originalName == RankName(namebase, k);
      assert names[k - 1] == names[samples];
    }
  }

  // ---------------------------------------------------------------- what the writer sees

  /** The labels the writer prints: the names, or the positions as `str(i)`. */
  function Labels(body: Body, index: Index): (labels: seq<string>)
    requires index.NameIndex? ==> |index.names| == Height(body)
    ensures |labels| == Height(body)
  {
    match index
    case RangeIndex => seq(Height(body), i requires 0 <= i => NatToString(i))
    case NameIndex(names) => names
  }

  /** One name/sequence record per row, in row order. */
  function Entries(body: Body, index: Index): (entries: seq<FastaRecord>)
    requires index.NameIndex? ==> |index.names| == Height(body)
    ensures |entries| == Height(body)
  {
    var labels, sequences := Labels(body, index), SequenceColumn(body);
    seq(Height(body), i requires 0 <= i < Height(body) => FastaRecord(labels[i], sequences[i]))
  }

  /** The label at `k` is also carried by another row. */
  predicate Repeated(labels: seq<string>, k: nat)
    requires k < |labels|
  {
    labels[k] in labels[..k] + labels[k + 1..]
  }

  /** The first row whose label is carried by another row, or the number of rows. */
  function FirstRepeated(labels: seq<string>, from: nat): (k: nat)
    requires from <= |labels|
    ensures from <= k <= |labels|
    ensures k < |labels| ==> Repeated(labels, k)
    ensures forall j :: from <= j < k ==> !Repeated(labels, j)
    decreases |labels| - from
  {
    if from == |labels| then from
    else if Repeated(labels, from) then from
    else FirstRepeated(labels, from + 1)
  }

  /** No row's label is repeated exactly when the labels are pairwise distinct. */
  lemma NoRepeatIffDistinct(labels: seq<string>)
    ensures FirstRepeated(labels, 0) == |labels| <==> Distinct(labels)
  {
    var k := FirstRepeated(labels, 0);
    if k < |labels| {
      RepeatedNotDistinct(labels, k);
    } else {
      forall i, j | 0 <= i < j < |labels| ensures labels[i] != labels[j] {
        NotRepeatedLater(labels, i, j);
      }
    }
  }

  lemma RepeatedNotDistinct(labels: seq<string>, k: nat)
    requires k < |labels| && Repeated(labels, k)
    ensures !Distinct(labels)
  {
    var rest := labels[..k] + labels[k + 1..];
    var m :| 0 <= m < |rest| && rest[m] == labels[k];
    if m < k {
      assert rest[m] == labels[m];
      assert labels[m] == labels[k];
    } else {
      assert rest[m] == labels[m + 1];
      assert labels[k] == labels[m + 1];
    }
  }

  lemma NotRepeatedLater(labels: seq<string>, i: nat, j: nat)
    requires i < j < |labels| && !Repeated(labels, i)
    ensures labels[i] != labels[j]
  {
    var rest := labels[..i] + labels[i + 1..];
    assert rest[j - 1] == labels[j];
  }

  /** Positional labels never repeat: writing a table that was never named always succeeds. */
  lemma RangeLabelsDistinct(body: Body)
    ensures Distinct(Labels(body, RangeIndex))
  {
    var labels := Labels(body, RangeIndex);
    forall i, j | 0 <= i < j < |labels| ensures labels[i] != labels[j] {
      if labels[i] == labels[j] {
        NatToStringInjective(i, j);
      }
    }
  }

  // ---------------------------------------------------------------- the table

  class Frame {
    var body: Body
    var index: Index
    var added: seq<Column>

    ghost predicate Valid()
      reads this
    {
      && (index.NameIndex? ==> |index.names| == Height(body))
      && (forall k :: 0 <= k < |added| ==> CellCount(added[k].cells) == Height(body))
      && Distinct(ColumnLabels(added))
    }

    /** `pd.DataFrame(all_data, columns=[...])` of the reader of the design tool's output. */
    constructor FromMpnn(rows: seq<MpnnRow>)
      ensures Valid()
      ensures body == MpnnColumns(rows) && index == RangeIndex && added == []
    {
      body, index, added := MpnnColumns(rows), RangeIndex, [];
    }

    /** `pd.DataFrame(all_data, columns=["name", "sequence"]).set_index("name")`. */
    constructor FromFasta(records: seq<FastaRecord>)
      ensures Valid()
      ensures body == FastaColumns(seq(|records|, i requires 0 <= i < |records| => records[i].sequence))
      ensures index == NameIndex(seq(|records|, i requires 0 <= i < |records| => records[i].name))
      ensures added == []
    {
      body := FastaColumns(seq(|records|, i requires 0 <= i < |records| => records[i].sequence));
      index := NameIndex(seq(|records|, i requires 0 <= i < |records| => records[i].name));
      added := [];
    }

    /** The table `set_index` returns: same columns and rows, relabelled. */
    constructor Relabelled(b: Body, names: seq<string>, cols: seq<Column>)
      requires |names| == Height(b)
      requires forall k :: 0 <= k < |cols| ==> CellCount(cols[k].cells) == Height(b)
      requires Distinct(ColumnLabels(cols))
      ensures Valid()
      ensures body == b && index == NameIndex(names) && added == cols
    {
      body, index, added := b, NameIndex(names), cols;
    }

    /**
     * `calc_num_residue_df`: assigns the column `num_<res>`, one count per row
     * in row order. Python rejects an empty `res` ("empty separator") as soon as
     * there is a row to split; then nothing changes.
     */
    method CountResidues(res: string) returns (ok: bool)
      requires Valid()
      modifies this
      ensures Valid()
      ensures body == old(body) && index == old(index)
      ensures ok <==> res != "" || Height(body) == 0
      ensures ok ==> added == AssignColumn(old(added), Column("num_" + res, IntCells(ResidueCounts(SequenceColumn(body), res))))
      ensures !ok ==> added == old(added)
    {
      var sequences := SequenceColumn(body);
      if res == "" && |sequences| > 0 {
        return false;
      }
      var col := Column("num_" + res, IntCells(ResidueCounts(sequences, res)));
      AssignColumnKeepsDistinct(added, col);
      AssignColumnCells(added, col, Height(body));
      added := AssignColumn(added, col);
      ok := true;
    }

    /**
     * `add_name_list_to_MPNN_df`. It fails on an empty table and on one without
     * a `sample` column. If the last row's sample is not -1 it returns the table
     * itself, unchanged. Otherwise it assigns the name list as column `name` of
     * this table and returns a new table indexed by those names, without that column.
     */
    method AddRankNames(namebase: string, originalName: string) returns (r: Result<Frame, RankError>)
      requires Valid()
      modifies this
      ensures Valid()
      ensures body == old(body) && index == old(index)
      ensures Height(body) == 0 ==> r == Err(EmptyTable) && added == old(added)
      ensures Height(body) > 0 && body.FastaColumns? ==> r == Err(NoSampleColumn) && added == old(added)
      ensures Height(body) > 0 && body.MpnnColumns? && Last(body.rows).sample != -1 ==>
        r == Ok(this) && added == old(added)
      ensures Height(body) > 0 && body.MpnnColumns? && Last(body.rows).sample == -1 ==>
        var names := RankNames(namebase, originalName, Height(body) - 1);
        && added == AssignColumn(old(added), Column("name", TextCells(names)))
        && r.Ok? && fresh(r.value) && r.value.Valid()
        && r.value.body == body
        && r.value.index == NameIndex(names)
        && r.value.added == DropColumn(added, "name")
    {
      var n := Height(body);
      var names := RankNames(namebase, originalName, if n == 0 then 0 else n - 1);
      if n == 0 {
        return Err(EmptyTable);
      }
      if body.FastaColumns? {
        return Err(NoSampleColumn);
      }
      if body.rows[n - 1].sample != -1 {
        return Ok(this);
      }
      NameColumnValid(added, names, n);
      added := AssignColumn(added, Column("name", TextCells(names)));
      var kept := DropColumn(added, "name");
      var relabelled := new Frame.Relabelled(body, names, kept);
      r := Ok(relabelled);
    }

    /**
     * `write_df_to_fasta`, returning the text instead of writing a file.
     * `df.loc[label]` on a label two rows carry yields a table, not a row. Its
     * `.name` raises AttributeError unless the table has a column `name` (a
     * table named twice), which `.name` then selects; so without such a column
     * `ok` is false exactly when some label repeats. The text is what was
     * written before the first row whose label repeats.
     */
    method WriteFasta() returns (text: string, ok: bool)
      requires Valid()
      ensures Lookup(added, "name").None? ==> (ok <==> Distinct(Labels(body, index)))
      ensures Lookup(added, "name").Some? ==> ok
      ensures text == FastaText(Entries(body, index)[..FirstRepeated(Labels(body, index), 0)])
    {
      var labels := Labels(body, index);
      var entries := Entries(body, index);
      ghost var stop := FirstRepeated(labels, 0);
      NoRepeatIffDistinct(labels);
      text := "";
      var k := 0;
      while k < |labels|
        invariant 0 <= k <= stop
        invariant text == FastaText(entries[..k])
        decreases |labels| - k
      {
        if Repeated(labels, k) {
          assert k == stop;
          return text, Lookup(added, "name").Some?;
        }
        FastaTextPrefix(entries, k);
        text := text + Entry(entries[k]);
        k := k + 1;
      }
      ok := true;
    }
  }

  // ---------------------------------------------------------------- properties across functions

  /**
   * Writing a rank-named table succeeds exactly when the original's name is
   * none of `<namebase>_rank1` ... `<namebase>_rank<n-1>`.
   */
  lemma RankedTableWritable(rows: seq<MpnnRow>, namebase: string, originalName: string)
    requires |rows| > 0
    ensures Distinct(Labels(MpnnColumns(rows), NameIndex(RankNames(namebase, originalName, |rows| - 1)))) <==>
      forall k :: 1 <= k <= |rows| - 1 ==> originalName != RankName(namebase, k)
  {
    RankNamesDistinct(namebase, originalName, |rows| - 1);
  }

  /**
   * A table read from plain FASTA whose names are distinct and free of line
   * breaks is written in full, and reading that text back gives the records
   * the table was made from.
   */
  lemma FastaTableRoundTrip(records: seq<FastaRecord>)
    requires forall k :: 0 <= k < |records| ==> Writable(records[k])
    requires Distinct(seq(|records|, i requires 0 <= i < |records| => records[i].name))
    ensures var body := FastaColumns(seq(|records|, i requires 0 <= i < |records| => records[i].sequence));
      var index := NameIndex(seq(|records|, i requires 0 <= i < |records| => records[i].name));
      && FirstRepeated(Labels(body, index), 0) == |records|
      && Entries(body, index) == records
      && RecordsFrom(FileLines(FastaText(Entries(body, index)[..|records|])), 0) == records
  {
    var body := FastaColumns(seq(|records|, i requires 0 <= i < |records| => records[i].sequence));
    var index := NameIndex(seq(|records|, i requires 0 <= i < |records| => records[i].name));
    NoRepeatIffDistinct(Labels(body, index));
    var entries := Entries(body, index);
    assert forall i :: 0 <= i < |records| ==> entries[i] == records[i];
    assert entries == records;
    assert entries[..|records|] == records;
    RoundTrip(records);
  }
}
