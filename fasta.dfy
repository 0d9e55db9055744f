/**
 * Plain FASTA: the reader `fasta_to_df` and the text `write_df_to_fasta`
 * produces, with the round trip between them.
 */
module Fasta {
  import opened PyStr
  import opened LineWalk

  /** One record: its name and its one-line sequence. */
  datatype FastaRecord = FastaRecord(name: string, sequence: string)

  predicate IsComment(line: string) {
    StartsWith(line, "#")
  }

  /** The record of the header at index `j` and the line after it, each without its last character. */
  function RecordAt(lines: seq<string>, j: nat): FastaRecord
    requires j < |lines|
  {
    FastaRecord(Slice(lines[j], 1, -1), Slice(LineAt(lines, j + 1), 0, -1))
  }

  /** The records the reader's loop collects from line `i` on. */
  function RecordsFrom(lines: seq<string>, i: nat): seq<FastaRecord>
    decreases |lines| - i
  {
    if i >= |lines| then []
    else if IsComment(lines[i]) then RecordsFrom(lines, i + 1)
    else if IsHeader(lines[i]) then [RecordAt(lines, i)] + RecordsFrom(lines, i + 2)
    else RecordsFrom(lines, i + 1)
  }

  /** `fasta_to_df`, over the lines of the file instead of its path. */
  method ReadFasta(lines: seq<string>) returns (records: seq<FastaRecord>)
    ensures records == RecordsFrom(lines, 0)
  {
    records := [];
    var i := 0;
    while i < |lines|
      invariant records + RecordsFrom(lines, i) == RecordsFrom(lines, 0)
      decreases |lines| - i
    {
      var line := lines[i];
      if IsComment(line) {
        i := i + 1;
      } else if IsHeader(line) {
        var sequence := LineAt(lines, i + 1);
        assert records + RecordsFrom(lines, i) == (records + [RecordAt(lines, i)]) + RecordsFrom(lines, i + 2);
        records := records + [FastaRecord(Slice(line, 1, -1), Slice(sequence, 0, -1))];
        i := i + 2;
      } else {
        i := i + 1;
      }
    }
    assert records + [] == records;
  }

  /** The two lines written for one record. */
  function Entry(r: FastaRecord): string {
    ">" + r.name + "\n" + r.sequence + "\n"
  }

  /** The text of a FASTA file holding `records`, in order. */
  function FastaText(records: seq<FastaRecord>): string
    decreases |records|
  {
    if records == [] then "" else Entry(records[0]) + FastaText(records[1..])
  }

  // ---------------------------------------------------------------- properties

  /** Comment lines never start with '>', so the reader's records are those of the walk's headers. */
  lemma {:induction false} RecordsAreThoseOfHeaders(lines: seq<string>, i: nat)
    ensures |RecordsFrom(lines, i)| == |Headers(lines, i)|
    ensures forall k :: 0 <= k < |Headers(lines, i)| ==> RecordsFrom(lines, i)[k] == RecordAt(lines, Headers(lines, i)[k])
    decreases |lines| - i
  {
    if i < |lines| {
      if IsComment(lines[i]) {
        RecordsAreThoseOfHeaders(lines, i + 1);
      } else if IsHeader(lines[i]) {
        RecordsAreThoseOfHeaders(lines, i + 2);
        var h := Headers(lines, i);
        var rs := RecordsFrom(lines, i);
        assert h == [i] + Headers(lines, i + 2);
        assert rs == [RecordAt(lines, i)] + RecordsFrom(lines, i + 2);
        forall k | 0 < k < |h| ensures rs[k] == RecordAt(lines, h[k]) {
          assert h[k] == Headers(lines, i + 2)[k - 1];
        }
      } else {
        RecordsAreThoseOfHeaders(lines, i + 1);
      }
    }
  }

  /** Writing one more record appends its two lines. */
  lemma {:induction false} FastaTextAppend(records: seq<FastaRecord>, r: FastaRecord)
    ensures FastaText(records + [r]) == FastaText(records) + Entry(r)
    decreases |records|
  {
    if records == [] {
      assert [r][1..] == [];
    } else {
      assert (records + [r])[1..] == records[1..] + [r];
      FastaTextAppend(records[1..], r);
    }
  }

  /** Writing one more row of a table extends the text of the rows before it by that row's entry. */
  lemma FastaTextPrefix(records: seq<FastaRecord>, k: nat)
    requires k < |records|
    ensures FastaText(records[..k + 1]) == FastaText(records[..k]) + Entry(records[k])
  {
    assert records[..k + 1] == records[..k] + [records[k]];
    FastaTextAppend(records[..k], records[k]);
  }

  predicate Writable(r: FastaRecord) {
    NoLineBreak(r.name) && NoLineBreak(r.sequence)
  }

  /** The lines of the written text: a header and a sequence line per record. */
  function EntryLines(records: seq<FastaRecord>): (lines: seq<string>)
    ensures |lines| == 2 * |records|
  {
    if records == [] then [] else [">" + records[0].name + "\n", records[0].sequence + "\n"] + EntryLines(records[1..])
  }

  lemma {:induction false} FastaTextLines(records: seq<FastaRecord>)
    requires forall k :: 0 <= k < |records| ==> Writable(records[k])
    ensures FileLines(FastaText(records)) == EntryLines(records)
    decreases |records|
  {
    TextHasNoCarriageReturn(records);
    TranslateIdentity(FastaText(records));
    SplitEntryLines(records);
  }

  lemma {:induction false} TextHasNoCarriageReturn(records: seq<FastaRecord>)
    requires forall k :: 0 <= k < |records| ==> Writable(records[k])
    ensures '\r' !in FastaText(records)
    decreases |records|
  {
    if records != [] {
      TextHasNoCarriageReturn(records[1..]);
      assert Writable(records[0]);
    }
  }

  lemma {:induction false} SplitEntryLines(records: seq<FastaRecord>)
    requires forall k :: 0 <= k < |records| ==> Writable(records[k])
    ensures SplitLines(FastaText(records)) == EntryLines(records)
    decreases |records|
  {
    if records != [] {
      assert Writable(records[0]);
      SplitEntryLines(records[1..]);
      SplitEntry(records[0], FastaText(records[1..]));
    }
  }

  /** The two lines of one entry are split off in front of whatever follows. */
  lemma SplitEntry(r: FastaRecord, rest: string)
    requires Writable(r)
    ensures SplitLines(Entry(r) + rest) == [">" + r.name + "\n", r.sequence + "\n"] + SplitLines(rest)
  {
    var header, sequence := ">" + r.name, r.sequence;
    assert '\n' !in header by {
      assert header[1..] == r.name;
    }
    var after := sequence + "\n" + rest;
    calc {
      SplitLines(Entry(r) + rest);
      { assert Entry(r) + rest == header + "\n" + after; }
      SplitLines(header + "\n" + after);
      { SplitLinesCons(header, after); }
      [header + "\n"] + SplitLines(after);
      { SplitLinesCons(sequence, rest); }
      [header + "\n"] + ([sequence + "\n"] + SplitLines(rest));
    }
  }

  lemma {:induction false} ReadEntryLines(records: seq<FastaRecord>)
    requires forall k :: 0 <= k < |records| ==> Writable(records[k])
    ensures RecordsFrom(EntryLines(records), 0) == records
    decreases |records|
  {
    if records != [] {
      var tail := EntryLines(records[1..]);
      ReadEntryLines(records[1..]);
      ReadOneEntry(records[0], tail);
      assert records == [records[0]] + records[1..];
    }
  }

  /** The two lines written for a record, in front of other lines, read back as that record first. */
  lemma ReadOneEntry(r: FastaRecord, tail: seq<string>)
    ensures RecordsFrom([">" + r.name + "\n", r.sequence + "\n"] + tail, 0) == [r] + RecordsFrom(tail, 0)
  {
    var header, sequenceLine := ">" + r.name + "\n", r.sequence + "\n";
    var lines := [header, sequenceLine] + tail;
    assert RecordAt(lines, 0) == r by {
      DropFirstAndLastChar(header);
      assert header[1..|header| - 1] == r.name;
      DropLastChar(sequenceLine);
      assert sequenceLine[..|sequenceLine| - 1] == r.sequence;
    }
    assert !IsComment(header) && IsHeader(header) by {
      assert header[..1] == ">";
    }
    DropLine(lines, 2);
    DropLine(lines[1..], 1);
    DropTwo(header, sequenceLine, tail);
  }

  /** The reader at line `i >= 1` never looks at the first line. */
  lemma {:induction false} DropLine(lines: seq<string>, i: nat)
    requires lines != [] && 1 <= i
    ensures RecordsFrom(lines, i) == RecordsFrom(lines[1..], i - 1)
    decreases |lines| - i
  {
    var rest := lines[1..];
    if i < |lines| {
      var line := lines[i];
      assert rest[i - 1] == line;
      if IsComment(line) || !IsHeader(line) {
        calc {
          RecordsFrom(lines, i);
          RecordsFrom(lines, i + 1);
          { DropLine(lines, i + 1); }
          RecordsFrom(rest, i);
          RecordsFrom(rest, i - 1);
        }
      } else {
        var r := RecordAt(lines, i);
        assert r == RecordAt(rest, i - 1) by {
          assert LineAt(rest, i) == LineAt(lines, i + 1);
        }
        calc {
          RecordsFrom(lines, i);
          [r] + RecordsFrom(lines, i + 2);
          { DropLine(lines, i + 2); }
          [r] + RecordsFrom(rest, i + 1);
          RecordsFrom(rest, i - 1);
        }
      }
    }
  }

  /** Two elements put in front of `t` and dropped again leave `t`. */
  lemma DropTwo<T>(a: T, b: T, t: seq<T>)
    ensures ([a, b] + t)[1..][1..] == t
  {
  }

  /**
   * Round trip: the text written for records whose names and sequences hold no
   * line break is read back as the same records, in the same order.
   */
  lemma RoundTrip(records: seq<FastaRecord>)
    requires forall k :: 0 <= k < |records| ==> Writable(records[k])
    ensures RecordsFrom(FileLines(FastaText(records)), 0) == records
  {
    FastaTextLines(records);
    ReadEntryLines(records);
  }
}
