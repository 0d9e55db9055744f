/**
 * The walk both readers take over a file's lines: a line starting with '>' is
 * a header and the line right after it is consumed as its sequence (by the
 * `readline()` inside the `for` loop), so it is never looked at as a header.
 */
module LineWalk {
  import opened PyStr

  predicate IsHeader(line: string) {
    StartsWith(line, ">")
  }

  /** `f.readline()` after `i` lines were consumed: the next line, or "" at end of file. */
  function LineAt(lines: seq<string>, i: nat): string {
    if i < |lines| then lines[i] else ""
  }

  /** The indices the walk treats as headers, starting at line `i`, in file order. */
  function Headers(lines: seq<string>, i: nat): (h: seq<nat>)
    ensures forall k :: 0 <= k < |h| ==> i <= h[k] < |lines| && IsHeader(lines[h[k]])
    ensures forall j, k :: 0 <= j < k < |h| ==> h[j] + 2 <= h[k]
    decreases |lines| - i
  {
    if i >= |lines| then []
    else if IsHeader(lines[i]) then [i] + Headers(lines, i + 2)
    else Headers(lines, i + 1)
  }

  /**
   * Every header line at or after `i` is either taken as a header or is the
   * line right after one (consumed as that header's sequence).
   */
  lemma {:induction false} HeadersCover(lines: seq<string>, i: nat, j: nat)
    requires i <= j < |lines| && IsHeader(lines[j])
    ensures j in Headers(lines, i) || (j > 0 && j - 1 in Headers(lines, i))
    decreases |lines| - i
  {
    if IsHeader(lines[i]) {
      if j > i + 1 {
        HeadersCover(lines, i + 2, j);
      }
    } else if j > i {
      HeadersCover(lines, i + 1, j);
    }
  }
}
