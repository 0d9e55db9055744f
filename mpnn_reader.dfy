/**
 * The reader of the sequence-design tool's FASTA output (`MPNN_fasta_to_df`).
 * The first header/sequence pair is the original sequence; every later header
 * reads `>T=<t>, sample=<n>, score=<s>, seq_recovery=<r>` and is followed by
 * its designed sequence.
 */
module MpnnReader {
  import opened Wrappers
  import opened PyStr
  import opened LineWalk

  /**
   * One row of the table, columns T, sample, score, seq_recovery, sequence.
   * The three float columns hold the text `float()` is applied to.
   */
  datatype MpnnRow = MpnnRow(temperature: string, sample: int, score: string, seqRecovery: string, sequence: string)

  /** The Python exceptions a malformed file raises. */
  datatype ReadError =
    | IndexError   // a header has fewer pieces or words than the reader indexes
    | ValueError   // `int()` rejects the sample token

  /** `xs` in front of the rows of `r`, or the error of `r`. */
  function Prepend(xs: seq<MpnnRow>, r: Result<seq<MpnnRow>, ReadError>): Result<seq<MpnnRow>, ReadError> {
    match r
    case Ok(ys) => Ok(xs + ys)
    case Err(e) => Err(e)
  }

  lemma PrependTwice(xs: seq<MpnnRow>, ys: seq<MpnnRow>, r: Result<seq<MpnnRow>, ReadError>)
    ensures Prepend(xs, Prepend(ys, r)) == Prepend(xs + ys, r)
  {
    if r.Ok? {
      assert xs + (ys + r.value) == (xs + ys) + r.value;
    }
  }

  /** The value of a `key=value` piece: the text after its last '='. */
  function FieldValue(piece: string): string {
    Last(Split(piece, "="))
  }

  /**
   * The score token of the first header: drop '>' and the line end, drop one
   * more character at each end, take the second whitespace-separated word, the
   * text after its first '=', and drop that text's last character.
   */
  function OriginalScore(header: string): (r: Result<string, ReadError>)
  {
    var words := Words(Slice(Slice(header, 1, -1), 1, -1));
    if |words| < 2 then Err(IndexError)
    else
      var parts := Split(words[1], "=");
      if |parts| < 2 then Err(IndexError)
      else Ok(Slice(parts[1], 0, -1))
  }

  /** The row of the original sequence, from the first two lines. */
  function OriginalRow(header: string, sequenceLine: string): (r: Result<MpnnRow, ReadError>)
  {
    match OriginalScore(header)
    case Err(e) => Err(e)
    case Ok(score) => Ok(MpnnRow("0.0", -1, score, "1.0000", Slice(sequenceLine, 0, -1)))
  }

  /**
   * The row of a later header and the line after it. The header (without its
   * first and last character) is split on ", "; pieces are read in the order
   * the source reads them, so a bad sample token is reported before a missing
   * third or fourth piece.
   */
  function SampleRow(header: string, sequenceLine: string): (r: Result<MpnnRow, ReadError>)
  {
    var info := Split(Slice(header, 1, -1), ", ");
    if |info| < 2 then Err(IndexError)
    else match ParseInt(FieldValue(info[1]))
      case None => Err(ValueError)
      case Some(sample) =>
        if |info| < 4 then Err(IndexError)
        else Ok(MpnnRow(FieldValue(info[0]), sample, FieldValue(info[2]), FieldValue(info[3]), Slice(sequenceLine, 0, -1)))
  }

  /** A field value the header format can carry: no '=' and no ", ". */
  predicate PlainToken(t: string) {
    '=' !in t && !Contains(t, ", ")
  }

  /** The `key=value` pieces of the header the design tool writes for one sample. */
  function HeaderFields(t: string, sample: int, score: string, seqRecovery: string): seq<string> {
    ["T=" + t, "sample=" + IntToString(sample), "score=" + score, "seq_recovery=" + seqRecovery]
  }

  /** The header line the design tool writes for one sample: its pieces joined by ", ". */
  function SampleHeader(t: string, sample: int, score: string, seqRecovery: string): string {
    ">" + Join(HeaderFields(t, sample, score, seqRecovery), ", ") + "\n"
  }

  /** The value of `key + v` is `v` when the key ends in '=' and `v` holds no '='. */
  lemma FieldValueOf(key: string, v: string)
    requires key != "" && key[|key| - 1] == '=' && '=' !in v
    ensures FieldValue(key + v) == v
  {
    assert "=" == ['='];
    LastPieceIsAfterLast(key + v, '=');
    AfterLastAppend(key, v, '=');
    AfterLastAbsent(v, '=');
  }

  lemma IntToStringPlain(i: int)
    ensures ',' !in IntToString(i) && '=' !in IntToString(i)
  {
    var s := IntToString(i);
    if i < 0 {
      assert s[1..] == NatToString(-i);
      assert forall k :: 1 <= k < |s| ==> IsDigit(s[k]);
    }
  }

  /**
   * The header format round-trips: a header written from plain tokens and an
   * integer sample, with its sequence line, reads back as exactly that row.
   */
  lemma SampleHeaderRoundTrip(t: string, sample: int, score: string, seqRecovery: string, sequence: string)
    requires PlainToken(t) && PlainToken(score) && PlainToken(seqRecovery)
    ensures SampleRow(SampleHeader(t, sample, score, seqRecovery), sequence + "\n")
      == Ok(MpnnRow(t, sample, score, seqRecovery, sequence))
  {
    var n := IntToString(sample);
    var info := HeaderFields(t, sample, score, seqRecovery);
    HeaderPieces(t, sample, score, seqRecovery);
    FieldValueOf("T=", t);
    IntToStringPlain(sample);
    FieldValueOf("sample=", n);
    FieldValueOf("score=", score);
    FieldValueOf("seq_recovery=", seqRecovery);
    IntToStringRoundTrip(sample);
    assert Slice(sequence + "\n", 0, -1) == sequence;
    SampleRowOk(SampleHeader(t, sample, score, seqRecovery), sequence + "\n");
  }

  /** Dropping one element at each end twice trims the outer pieces only. */
  lemma TrimTwice<T>(a: seq<T>, name: seq<T>, p: seq<T>, score: seq<T>, q: seq<T>, rest: seq<T>, z: seq<T>)
    requires |a| == 1 && |z| == 1 && name != [] && rest != []
    ensures var h := a + name + p + score + q + rest + z;
      var m := h[1..|h| - 1];
      m[1..|m| - 1] == name[1..] + p + score + q + rest[..|rest| - 1]
  {
    var h := a + name + p + score + q + rest + z;
    var m := h[1..|h| - 1];
    assert m == name + p + score + q + rest;
  }

  /** The trimmed score header, grouped word by word. */
  lemma Regroup<T>(x: seq<T>, c: T, sp: T, key: seq<T>, score: seq<T>, tail: seq<T>)
    ensures x + ([c, sp] + key) + score + [c, sp] + tail
      == (x + [c]) + ([sp] + ((key + score + [c]) + ([sp] + tail)))
  {
  }

  /** The score header without '>', its line end and one more character at each end. */
  lemma OriginalHeaderInner(name: string, score: string, rest: string)
    requires name != "" && rest != ""
    ensures Slice(Slice(">" + name + ", score=" + score + ", " + rest + "\n", 1, -1), 1, -1)
      == (name[1..] + ",") + (" " + (("score=" + score + ",") + (" " + rest[..|rest| - 1])))
  {
    var header := ">" + name + ", score=" + score + ", " + rest + "\n";
    DropFirstAndLastChar(header);
    var m := header[1..|header| - 1];
    DropFirstAndLastChar(m);
    TrimTwice(">", name, ", score=", score, ", ", rest, "\n");
    assert ", score=" == [',', ' '] + "score=";
    assert ", " == [',', ' '];
    Regroup(name[1..], ',', ' ', "score=", score, rest[..|rest| - 1]);
  }

  /** The second word of `w0 w1 tail` is `w1`. */
  lemma SecondWord(w0: string, w1: string, tail: string)
    requires w0 != "" && NoSpace(w0) && w1 != "" && NoSpace(w1)
    ensures var words := Words(w0 + (" " + (w1 + (" " + tail))));
      |words| >= 2 && words[1] == w1
  {
    WordsOfWord(w0, " " + (w1 + (" " + tail)));
    WordsAfterSpaces(" ", w1 + (" " + tail));
    WordsOfWord(w1, " " + tail);
  }

  /** `("score=" + token).split("=")` is `["score", token]` when `token` holds no '='. */
  lemma ScoreWordPieces(token: string)
    requires '=' !in token
    ensures var parts := Split("score=" + token, "=");
      |parts| >= 2 && parts[1] == token
  {
    var w := "score=" + token;
    assert "=" == ['='];
    SplitCharCount(w, '=');
    assert multiset(w)['='] == 1 by {
      assert multiset(w) == multiset("score=") + multiset(token);
      assert multiset("score=")['='] == 1;
    }
    FieldValueOf("score=", token);
  }

  /**
   * The first header round-trips: a header `>name, score=<s>, <rest>` whose
   * name and score token hold no whitespace, and whose score token holds no
   * '=', yields that score token as the original row's score.
   */
  lemma OriginalScoreRoundTrip(name: string, score: string, rest: string)
    requires name != "" && NoSpace(name)
    requires '=' !in score && NoSpace(score)
    requires rest != ""
    ensures OriginalScore(">" + name + ", score=" + score + ", " + rest + "\n") == Ok(score)
  {
    var w0, w1 := name[1..] + ",", "score=" + score + ",";
    OriginalHeaderInner(name, score, rest);
    assert NoSpace(name[1..]) by {
      assert forall j :: 0 <= j < |name| - 1 ==> name[1..][j] == name[j + 1];
    }
    NoSpaceAppend(name[1..], ",");
    NoSpaceAppend("score=", score);
    NoSpaceAppend("score=" + score, ",");
    SecondWord(w0, w1, rest[..|rest| - 1]);
    assert w1 == "score=" + (score + ",");
    ScoreWordPieces(score + ",");
    DropLastChar(score + ",");
    AppendSlices(score, ",");
  }

  /** The written header, without '>' and its line end, splits into its four `key=value` pieces. */
  lemma HeaderPieces(t: string, sample: int, score: string, seqRecovery: string)
    requires PlainToken(t) && PlainToken(score) && PlainToken(seqRecovery)
    ensures Split(Slice(SampleHeader(t, sample, score, seqRecovery), 1, -1), ", ")
      == ["T=" + t, "sample=" + IntToString(sample), "score=" + score, "seq_recovery=" + seqRecovery]
  {
    var n := IntToString(sample);
    var fields := HeaderFields(t, sample, score, seqRecovery);
    var inner := Join(fields, ", ");
    assert Slice(SampleHeader(t, sample, score, seqRecovery), 1, -1) == inner;
    IntToStringPlain(sample);
    NoCommaNoCommaSpace(n);
    KeyValueWithoutCommaSpace("T=", t);
    KeyValueWithoutCommaSpace("sample=", n);
    KeyValueWithoutCommaSpace("score=", score);
    KeyValueWithoutCommaSpace("seq_recovery=", seqRecovery);
    SplitJoinCommaSpace(fields);
  }

  /** The rows the `for` loop adds from line `i` on. */
  function SamplesFrom(lines: seq<string>, i: nat): Result<seq<MpnnRow>, ReadError>
    decreases |lines| - i
  {
    if i >= |lines| then Ok([])
    else if IsHeader(lines[i]) then
      match SampleRow(lines[i], LineAt(lines, i + 1))
      case Err(e) => Err(e)
      case Ok(row) => Prepend([row], SamplesFrom(lines, i + 2))
    else SamplesFrom(lines, i + 1)
  }

  /** The table `MPNN_fasta_to_df` builds from the lines of a file. */
  function MpnnTable(lines: seq<string>): Result<seq<MpnnRow>, ReadError> {
    match OriginalRow(LineAt(lines, 0), LineAt(lines, 1))
    case Err(e) => Err(e)
    case Ok(orig) => Prepend([orig], SamplesFrom(lines, 2))
  }

  /** `MPNN_fasta_to_df`, over the lines of the file instead of its path. */
  method ReadMpnnFasta(lines: seq<string>) returns (r: Result<seq<MpnnRow>, ReadError>)
    ensures r == MpnnTable(lines)
  {
    var orig := OriginalRow(LineAt(lines, 0), LineAt(lines, 1));
    if orig.Err? {
      return Err(orig.error);
    }
    var rows := [orig.value];
    var i := 2;
    while i < |lines|
      invariant MpnnTable(lines) == Prepend(rows, SamplesFrom(lines, i))
      decreases |lines| - i
    {
      var line := lines[i];
      if IsHeader(line) {
        var row := SampleRow(line, LineAt(lines, i + 1));
        if row.Err? {
          assert SamplesFrom(lines, i) == Err(row.error);
          return Err(row.error);
        }
        assert SamplesFrom(lines, i) == Prepend([row.value], SamplesFrom(lines, i + 2));
        PrependTwice(rows, [row.value], SamplesFrom(lines, i + 2));
        rows := rows + [row.value];
        i := i + 2;
      } else {
        i := i + 1;
      }
    }
    assert SamplesFrom(lines, i) == Ok([]);
    assert rows + [] == rows;
    r := Ok(rows);
  }

  // ---------------------------------------------------------------- properties

  /** The row made from the header at index `j` and the line after it. */
  function HeaderRow(lines: seq<string>, j: nat): Result<MpnnRow, ReadError>
    requires j < |lines|
  {
    SampleRow(lines[j], LineAt(lines, j + 1))
  }

  /** The values of `results` in order, or the first of their errors. */
  function Collect(results: seq<Result<MpnnRow, ReadError>>): Result<seq<MpnnRow>, ReadError>
  {
    if results == [] then Ok([])
    else match results[0]
      case Err(e) => Err(e)
      case Ok(row) => Prepend([row], Collect(results[1..]))
  }

  /** The row or the error of each header of `h`, in order. */
  function HeaderResults(lines: seq<string>, h: seq<nat>): (results: seq<Result<MpnnRow, ReadError>>)
    requires forall k :: 0 <= k < |h| ==> h[k] < |lines|
    ensures |results| == |h|
  {
    if h == [] then [] else [HeaderRow(lines, h[0])] + HeaderResults(lines, h[1..])
  }

  lemma {:induction false} HeaderResultsAt(lines: seq<string>, h: seq<nat>, k: nat)
    requires forall j :: 0 <= j < |h| ==> h[j] < |lines|
    requires k < |h|
    ensures HeaderResults(lines, h)[k] == HeaderRow(lines, h[k])
    decreases k
  {
    if k > 0 {
      HeaderResultsAt(lines, h[1..], k - 1);
      assert h[1..][k - 1] == h[k];
    }
  }

  /** The rows of the headers `h`, in order, or the first of their errors. */
  function RowsOfHeaders(lines: seq<string>, h: seq<nat>): Result<seq<MpnnRow>, ReadError>
    requires forall k :: 0 <= k < |h| ==> h[k] < |lines|
  {
    Collect(HeaderResults(lines, h))
  }

  /** A successful collection holds one value per result, in order. */
  lemma {:induction false} CollectOk(results: seq<Result<MpnnRow, ReadError>>)
    requires Collect(results).Ok?
    ensures |Collect(results).value| == |results|
    ensures forall k :: 0 <= k < |results| ==> results[k] == Ok(Collect(results).value[k])
    decreases |results|
  {
    if results != [] {
      var tail := results[1..];
      CollectOk(tail);
      var rows := Collect(results).value;
      var rest := Collect(tail).value;
      assert rows == [results[0].value] + rest;
      forall k | 0 < k < |results| ensures results[k] == Ok(rows[k]) {
        assert results[k] == tail[k - 1];
        assert rows[k] == rest[k - 1];
      }
    }
  }

  /** One error among the results makes the collection fail. */
  lemma {:induction false} CollectErr(results: seq<Result<MpnnRow, ReadError>>, k: nat)
    requires k < |results| && results[k].Err?
    ensures Collect(results).Err?
    decreases k
  {
    if k > 0 && results[0].Ok? {
      assert results[1..][k - 1] == results[k];
      CollectErr(results[1..], k - 1);
    }
  }

  /** A failed collection fails with the error of its first failing result. */
  lemma {:induction false} CollectFails(results: seq<Result<MpnnRow, ReadError>>)
    requires Collect(results).Err?
    ensures exists k ::
      && 0 <= k < |results|
      && results[k] == Err(Collect(results).error)
      && (forall j :: 0 <= j < k ==> results[j].Ok?)
    decreases |results|
  {
    if results[0].Ok? {
      var tail := results[1..];
      CollectFails(tail);
      var k :| 0 <= k < |tail| && tail[k] == Err(Collect(tail).error) &&
        forall j :: 0 <= j < k ==> tail[j].Ok?;
      assert results[k + 1] == tail[k];
      forall j | 0 < j < k + 1 ensures results[j].Ok? {
        assert results[j] == tail[j - 1];
      }
    }
  }

  /** The loop makes one row per header of the walk, from that header and the line after it. */
  lemma {:induction false} SamplesAreRowsOfHeaders(lines: seq<string>, i: nat)
    ensures SamplesFrom(lines, i) == RowsOfHeaders(lines, Headers(lines, i))
    decreases |lines| - i
  {
    if i < |lines| {
      if IsHeader(lines[i]) {
        SamplesAreRowsOfHeaders(lines, i + 2);
        var h := Headers(lines, i);
        assert h[0] == i && h[1..] == Headers(lines, i + 2);
        var results := HeaderResults(lines, h);
        assert results[1..] == HeaderResults(lines, h[1..]);
      } else {
        SamplesAreRowsOfHeaders(lines, i + 1);
      }
    }
  }

  /** When every header is well formed, there is exactly one row per header, in order. */
  lemma RowsOfGoodHeaders(lines: seq<string>, h: seq<nat>)
    requires forall k :: 0 <= k < |h| ==> h[k] < |lines|
    requires RowsOfHeaders(lines, h).Ok?
    ensures |RowsOfHeaders(lines, h).value| == |h|
    ensures forall k :: 0 <= k < |h| ==>
      HeaderRow(lines, h[k]) == Ok(RowsOfHeaders(lines, h).value[k])
  {
    var results := HeaderResults(lines, h);
    CollectOk(results);
    forall k | 0 <= k < |h| ensures HeaderRow(lines, h[k]) == Ok(RowsOfHeaders(lines, h).value[k]) {
      HeaderResultsAt(lines, h, k);
    }
  }

  /** A header whose row fails makes the whole read fail. */
  lemma BadHeaderFails(lines: seq<string>, h: seq<nat>, k: nat)
    requires forall j :: 0 <= j < |h| ==> h[j] < |lines|
    requires k < |h| && HeaderRow(lines, h[k]).Err?
    ensures RowsOfHeaders(lines, h).Err?
  {
    HeaderResultsAt(lines, h, k);
    CollectErr(HeaderResults(lines, h), k);
  }

  /**
   * What a successful read yields: the original row first (T 0.0, sample -1,
   * seq_recovery 1.0000, the score token of line 1, line 2 without its last
   * character), then one row per header of the walk from the third line, each
   * made from that header and the line after it.
   */
  lemma MpnnTableShape(lines: seq<string>)
    requires MpnnTable(lines).Ok?
    ensures var rows := MpnnTable(lines).value;
      var h := Headers(lines, 2);
      && |rows| == 1 + |h|
      && OriginalScore(LineAt(lines, 0)).Ok?
      && rows[0] == MpnnRow("0.0", -1, OriginalScore(LineAt(lines, 0)).value, "1.0000", Slice(LineAt(lines, 1), 0, -1))
      && forall k :: 0 <= k < |h| ==> HeaderRow(lines, h[k]) == Ok(rows[k + 1])
  {
    var h := Headers(lines, 2);
    SamplesAreRowsOfHeaders(lines, 2);
    RowsOfGoodHeaders(lines, h);
  }

  /** A read fails exactly when the first header fails or one of the walk's headers does. */
  lemma MpnnTableFails(lines: seq<string>)
    ensures MpnnTable(lines).Err? <==>
      || OriginalScore(LineAt(lines, 0)).Err?
      || exists k :: 0 <= k < |Headers(lines, 2)| &&
           HeaderRow(lines, Headers(lines, 2)[k]).Err?
  {
    var h := Headers(lines, 2);
    SamplesAreRowsOfHeaders(lines, 2);
    if OriginalScore(LineAt(lines, 0)).Ok? {
      if RowsOfHeaders(lines, h).Ok? {
        RowsOfGoodHeaders(lines, h);
      } else {
        FirstBadHeader(lines, h);
      }
    }
    forall k | 0 <= k < |h| && HeaderRow(lines, h[k]).Err?
      ensures RowsOfHeaders(lines, h).Err?
    {
      BadHeaderFails(lines, h, k);
    }
  }

  /**
   * A failed read fails with the error of the first header whose row fails:
   * the exception Python raises is that of the first malformed header.
   */
  lemma FirstBadHeader(lines: seq<string>, h: seq<nat>)
    requires forall j :: 0 <= j < |h| ==> h[j] < |lines|
    requires RowsOfHeaders(lines, h).Err?
    ensures exists k ::
      && 0 <= k < |h|
      && HeaderRow(lines, h[k]) == Err(RowsOfHeaders(lines, h).error)
      && (forall j :: 0 <= j < k ==> HeaderRow(lines, h[j]).Ok?)
  {
    var results := HeaderResults(lines, h);
    CollectFails(results);
    var k :| 0 <= k < |results| && results[k] == Err(Collect(results).error) &&
      forall j :: 0 <= j < k ==> results[j].Ok?;
    HeaderResultsAt(lines, h, k);
    forall j | 0 <= j < k ensures HeaderRow(lines, h[j]).Ok? {
      HeaderResultsAt(lines, h, j);
    }
  }

  /**
   * A later header makes a row exactly when it has four pieces or more and
   * `int()` accepts the value of piece 1, and the row then holds the values of
   * pieces 0, 2 and 3, that integer, and the next line less its last character.
   */
  lemma SampleRowOk(header: string, sequenceLine: string)
    ensures var info := Split(Slice(header, 1, -1), ", ");
      && (SampleRow(header, sequenceLine).Ok? <==> |info| >= 4 && ParseInt(FieldValue(info[1])).Some?)
      && (SampleRow(header, sequenceLine).Ok? ==>
            SampleRow(header, sequenceLine).value ==
            MpnnRow(FieldValue(info[0]), ParseInt(FieldValue(info[1])).value, FieldValue(info[2]),
                    FieldValue(info[3]), Slice(sequenceLine, 0, -1)))
  {
  }

  /** The fields of a well-formed later header, as the text after the last '=' of each piece. */
  lemma SampleRowFields(header: string, sequenceLine: string)
    requires SampleRow(header, sequenceLine).Ok?
    ensures var info := Split(Slice(header, 1, -1), ", ");
      var row := SampleRow(header, sequenceLine).value;
      && |info| >= 4
      && row.temperature == AfterLast(info[0], '=')
      && ParseInt(AfterLast(info[1], '=')) == Some(row.sample)
      && row.score == AfterLast(info[2], '=')
      && row.seqRecovery == AfterLast(info[3], '=')
      && row.sequence == Slice(sequenceLine, 0, -1)
  {
    var info := Split(Slice(header, 1, -1), ", ");
    var row := SampleRow(header, sequenceLine).value;
    SampleRowOk(header, sequenceLine);
    assert "=" == ['='];
    LastPieceIsAfterLast(info[0], '=');
    LastPieceIsAfterLast(info[1], '=');
    LastPieceIsAfterLast(info[2], '=');
    LastPieceIsAfterLast(info[3], '=');
  }
}
