/**
 * The pure helpers: loop substitution (`add_loop`), the residue count of one
 * sequence (`len(seq.split(res)) - 1`) and the per-position identity array
 * (`calc_seq_identity_array`).
 */
module Annotate {
  import opened Wrappers
  import opened PyStr

  // ---------------------------------------------------------------- add_loop

  /** `add_loop`: every '/' of the sequence replaced by the loop sequence. */
  function AddLoop(sequence: string, loopSeq: string): string {
    ReplaceChar(sequence, '/', loopSeq)
  }

  /** Substitution works piecewise: the loop text goes in place of each '/', nothing else moves. */
  lemma {:induction false} AddLoopAppend(a: string, b: string, loopSeq: string)
    ensures AddLoop(a + b, loopSeq) == AddLoop(a, loopSeq) + AddLoop(b, loopSeq)
    decreases |a|
  {
    if a == "" {
      assert a + b == b;
    } else {
      assert (a + b)[1..] == a[1..] + b;
      AddLoopAppend(a[1..], b, loopSeq);
    }
  }

  /** A sequence without '/' comes back unchanged. */
  lemma {:induction false} AddLoopWithoutSeparator(sequence: string, loopSeq: string)
    requires '/' !in sequence
    ensures AddLoop(sequence, loopSeq) == sequence
    decreases |sequence|
  {
    if sequence != "" {
      AddLoopWithoutSeparator(sequence[1..], loopSeq);
    }
  }

  /** If the loop sequence has no '/', the result has none. */
  lemma {:induction false} AddLoopRemovesSeparators(sequence: string, loopSeq: string)
    requires '/' !in loopSeq
    ensures '/' !in AddLoop(sequence, loopSeq)
    decreases |sequence|
  {
    if sequence != "" {
      AddLoopRemovesSeparators(sequence[1..], loopSeq);
    }
  }

  /**
   * The result is the sequence cut at every '/' with the pieces rejoined by the
   * loop sequence: every '/' is replaced and all other text is kept, in order.
   */
  lemma {:induction false} AddLoopIsSplitJoin(sequence: string, loopSeq: string)
    ensures AddLoop(sequence, loopSeq) == Join(Split(sequence, "/"), loopSeq)
    decreases |sequence|
  {
    var f := Find(sequence, "/");
    if f.None? {
      CharAbsent(sequence, '/');
      AddLoopWithoutSeparator(sequence, loopSeq);
    } else {
      var i := f.value;
      var before, rest := sequence[..i], sequence[i + 1..];
      calc {
        AddLoop(sequence, loopSeq);
        { CutAtFound(sequence, "/", i); }
        AddLoop(before + "/" + rest, loopSeq);
        { AddLoopAppend(before + "/", rest, loopSeq); }
        AddLoop(before + "/", loopSeq) + AddLoop(rest, loopSeq);
        { AddLoopAppend(before, "/", loopSeq);
          CharFound(sequence, '/', i);
          AddLoopWithoutSeparator(before, loopSeq);
          assert AddLoop("/", loopSeq) == loopSeq; }
        before + loopSeq + AddLoop(rest, loopSeq);
        { AddLoopIsSplitJoin(rest, loopSeq); }
        before + loopSeq + Join(Split(rest, "/"), loopSeq);
        { JoinCons(before, Split(rest, "/"), loopSeq); }
        Join([before] + Split(rest, "/"), loopSeq);
        { SplitAtFound(sequence, "/", i); }
        Join(Split(sequence, "/"), loopSeq);
      }
    }
  }

  /** Each '/' gives way to the whole loop sequence: the length grows by |loopSeq| - 1 per '/'. */
  lemma {:induction false} AddLoopLength(sequence: string, loopSeq: string)
    ensures |AddLoop(sequence, loopSeq)| + multiset(sequence)['/'] == |sequence| + multiset(sequence)['/'] * |loopSeq|
    decreases |sequence|
  {
    if sequence != "" {
      var rest := sequence[1..];
      var m, n := multiset(rest)['/'], |loopSeq|;
      AddLoopLength(rest, loopSeq);
      MultisetOfCons(sequence);
      if sequence[0] == '/' {
        assert multiset(sequence)['/'] == m + 1;
        assert (m + 1) * n == m * n + n;
      } else {
        assert multiset(sequence)['/'] == m;
      }
    }
  }

  lemma MultisetOfCons<T>(s: seq<T>)
    requires s != []
    ensures multiset(s) == multiset{s[0]} + multiset(s[1..])
  {
    assert s == [s[0]] + s[1..];
  }

  /** `add_loop` on a sequence with one '/' and on one without. */
  lemma AddLoopExamples()
    ensures AddLoop("ABC/DEF", "GG") == "ABCGGDEF"
    ensures AddLoop("ABC", "GG") == "ABC"
  {
    assert AddLoop("F", "GG") == "F";
    assert AddLoop("EF", "GG") == "EF";
    assert AddLoop("DEF", "GG") == "DEF";
    assert AddLoop("/DEF", "GG") == "GGDEF";
    assert AddLoop("C/DEF", "GG") == "CGGDEF";
    assert AddLoop("BC/DEF", "GG") == "BCGGDEF";
    assert AddLoop("C", "GG") == "C";
    assert AddLoop("BC", "GG") == "BC";
  }

  // ---------------------------------------------------------------- residue counts

  /** `len(sequence.split(res)) - 1`: the pieces a split makes, less one. */
  function ResidueCount(sequence: string, res: string): (n: nat)
    requires res != ""
  {
    |Split(sequence, res)| - 1
  }

  /** For a one-letter residue code the count is the number of times that letter occurs. */
  lemma ResidueCountOfLetter(sequence: string, res: string)
    requires |res| == 1
    ensures ResidueCount(sequence, res) == multiset(sequence)[res[0]]
  {
    assert res == [res[0]];
    SplitCharCount(sequence, res[0]);
  }

  /** `len("AAKA".split("A")) - 1` counts the three 'A's. */
  lemma ResidueCountExample()
    ensures ResidueCount("AAKA", "A") == 3
  {
    ResidueCountOfLetter("AAKA", "A");
    assert multiset("AAKA") == multiset{'A', 'A', 'K', 'A'};
  }

  /** The `num_<res>` column: one count per sequence, in row order. */
  function ResidueCounts(sequences: seq<string>, res: string): (counts: seq<int>)
    requires res != "" || sequences == []
    ensures |counts| == |sequences|
    ensures forall i :: 0 <= i < |sequences| ==> counts[i] == ResidueCount(sequences[i], res)
  {
    if sequences == [] then [] else [ResidueCount(sequences[0], res)] + ResidueCounts(sequences[1..], res)
  }

  // ---------------------------------------------------------------- identity array

  /**
   * `calc_seq_identity_array`: `None` (the source's `False`) when the lengths
   * differ, else one flag per position, 1 where the residues agree and 0 where not.
   */
  function IdentityArray(seq1: string, seq2: string): (r: Option<seq<int>>)
    ensures r.None? <==> |seq1| != |seq2|
    ensures r.Some? ==> |r.value| == |seq1|
    ensures r.Some? ==> forall i :: 0 <= i < |seq1| ==>
      (r.value[i] == 1 <==> seq1[i] == seq2[i]) && (r.value[i] == 0 <==> seq1[i] != seq2[i])
  {
    if |seq1| != |seq2| then None
    else Some(seq(|seq1|, i requires 0 <= i < |seq1| => if seq1[i] == seq2[i] then 1 else 0))
  }

  function Sum(xs: seq<int>): int {
    if xs == [] then 0 else xs[0] + Sum(xs[1..])
  }

  /** A sequence compared with itself matches everywhere. */
  lemma IdentityWithItself(s: string)
    ensures IdentityArray(s, s) == Some(seq(|s|, i => 1))
  {
    var flags := IdentityArray(s, s).value;
    assert forall i :: 0 <= i < |s| ==> flags[i] == 1;
    assert flags == seq(|s|, i => 1);
  }

  /** The comparison is symmetric. */
  lemma IdentitySymmetric(seq1: string, seq2: string)
    ensures IdentityArray(seq1, seq2) == IdentityArray(seq2, seq1)
  {
    if |seq1| == |seq2| {
      var a, b := IdentityArray(seq1, seq2).value, IdentityArray(seq2, seq1).value;
      assert forall i :: 0 <= i < |a| ==> a[i] == b[i];
      assert a == b;
    }
  }

  /** The flags sum to at most the length, and to the length exactly when the sequences are equal. */
  lemma {:induction false} IdentitySumIsLengthIffEqual(seq1: string, seq2: string)
    requires |seq1| == |seq2|
    ensures Sum(IdentityArray(seq1, seq2).value) <= |seq1|
    ensures Sum(IdentityArray(seq1, seq2).value) == |seq1| <==> seq1 == seq2
    decreases |seq1|
  {
    if seq1 != [] {
      var flags := IdentityArray(seq1, seq2).value;
      IdentitySumIsLengthIffEqual(seq1[1..], seq2[1..]);
      assert flags[1..] == IdentityArray(seq1[1..], seq2[1..]).value;
      if seq1[1..] == seq2[1..] && seq1[0] == seq2[0] {
        assert seq1 == [seq1[0]] + seq1[1..] && seq2 == [seq2[0]] + seq2[1..];
      }
      if seq1 == seq2 {
        assert seq1[1..] == seq2[1..];
      }
    }
  }

  /** The identity of two sequences that differ at one position, and of two of different lengths. */
  lemma IdentityExample()
    ensures IdentityArray("ABCD", "ABXD") == Some([1, 1, 0, 1])
    ensures IdentityArray("ABC", "ABCD") == None
  {
    assert IdentityArray("ABCD", "ABXD").value == [1, 1, 0, 1];
  }
}
