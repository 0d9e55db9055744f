/**
 * The parts of Python's `str`, `int()` and text-file behaviour that the
 * utilities rely on: slicing with negative bounds, `startswith`, `split(sep)`,
 * `split()`, `replace` of one character, `str(n)`, `int(s)` and the line
 * iteration of a file opened in text mode.
 */
module PyStr {
  import opened Wrappers

  // ---------------------------------------------------------------- slicing

  /** A slice bound `i` normalised against a length `n` as Python does. */
  function SliceBound(i: int, n: nat): (b: nat)
    ensures b <= n
    ensures 0 <= i <= n ==> b == i
    ensures i < 0 && 0 <= i + n ==> b == i + n
  {
    if i < 0 then (if i + n < 0 then 0 else i + n)
    else if i > n then n
    else i
  }

  /** `s[lo:hi]`: never fails, clamps out-of-range bounds, counts negative ones from the end. */
  function Slice(s: string, lo: int, hi: int): (r: string)
    ensures |r| <= |s|
  {
    var a, b := SliceBound(lo, |s|), SliceBound(hi, |s|);
    if a < b then s[a..b] else ""
  }

  /** `s[:-1]` drops the last character, and is "" on "". */
  lemma DropLastChar(s: string)
    ensures Slice(s, 0, -1) == if s == "" then "" else s[..|s| - 1]
  {
  }

  /** `s[1:-1]` drops the first and the last character, and is "" when `s` is shorter than two. */
  lemma DropFirstAndLastChar(s: string)
    ensures Slice(s, 1, -1) == if |s| < 2 then "" else s[1..|s| - 1]
  {
  }

  /** `s.startswith(p)` */
  predicate StartsWith(s: string, p: string) {
    |p| <= |s| && s[..|p|] == p
  }

  // ---------------------------------------------------------------- split(sep)

  /** `sep` occurs in `s` starting at index `i`. */
  predicate OccursAt(s: string, sep: string, i: int) {
    0 <= i && i + |sep| <= |s| && s[i..i + |sep|] == sep
  }

  predicate Contains(s: string, sep: string) {
    exists i :: 0 <= i <= |s| && OccursAt(s, sep, i)
  }

  /** `s.find(sep)`: the first index where `sep` occurs, if any. */
  function Find(s: string, sep: string): (r: Option<nat>)
    requires sep != ""
    ensures r.Some? ==> OccursAt(s, sep, r.value)
    ensures forall i :: 0 <= i && (r.None? || i < r.value) ==> !OccursAt(s, sep, i)
  {
    FindFrom(s, sep, 0)
  }

  /** The first occurrence of `sep` in `s` at index `j` or later, scanning left to right. */
  function FindFrom(s: string, sep: string, j: nat): (r: Option<nat>)
    requires sep != ""
    ensures r.Some? ==> j <= r.value && OccursAt(s, sep, r.value)
    ensures forall i :: j <= i && (r.None? || i < r.value) ==> !OccursAt(s, sep, i)
    decreases |s| - j
  {
    if j + |sep| > |s| then None
    else if OccursAt(s, sep, j) then Some(j)
    else FindFrom(s, sep, j + 1)
  }

  /**
   * `s.split(sep)` for a non-empty `sep`: the pieces between the occurrences of
   * `sep` found left to right, each occurrence ending where the next search starts.
   */
  function Split(s: string, sep: string): (r: seq<string>)
    requires sep != ""
    ensures |r| >= 1
    decreases |s|
  {
    match Find(s, sep)
    case None => [s]
    case Some(i) => [s[..i]] + Split(s[i + |sep|..], sep)
  }

  /** A split cuts at the first occurrence, so a string with none is one piece. */
  lemma SplitWithoutSeparator(s: string, sep: string)
    requires sep != "" && !Contains(s, sep)
    ensures Split(s, sep) == [s]
  {
    var f := Find(s, sep);
  }

  /** When `sep` does not occur before the end of `x`, splitting `x + sep + y` cuts there first. */
  lemma SplitAtFirst(x: string, sep: string, y: string)
    requires sep != ""
    requires forall p :: 0 <= p < |x| ==> !OccursAt(x + sep + y, sep, p)
    ensures Split(x + sep + y, sep) == [x] + Split(y, sep)
  {
    var s := x + sep + y;
    assert s[|x|..|x| + |sep|] == sep;
    assert OccursAt(s, sep, |x|);
    var f := Find(s, sep);
    assert f == Some(|x|);
    assert s[..|x|] == x && s[|x| + |sep|..] == y;
  }

  /** ", " occurs at `p` exactly when a ',' there is followed by a ' '. */
  lemma CommaSpaceAt(s: string, p: int)
    ensures OccursAt(s, ", ", p) <==> 0 <= p && p + 2 <= |s| && s[p] == ',' && s[p + 1] == ' '
  {
    if 0 <= p && p + 2 <= |s| {
      var w := s[p..p + 2];
      assert w[0] == s[p] && w[1] == s[p + 1];
      if s[p] == ',' && s[p + 1] == ' ' {
        assert w == ", ";
      }
    }
  }

  /** ", " can only occur inside a piece `x`, not across its end, when `x` is followed by ", ". */
  lemma CommaSpaceNotAcross(x: string, y: string)
    requires !Contains(x, ", ")
    ensures forall p :: 0 <= p < |x| ==> !OccursAt(x + ", " + y, ", ", p)
  {
    var s := x + ", " + y;
    forall p | 0 <= p < |x| ensures !OccursAt(s, ", ", p) {
      CommaSpaceAt(s, p);
      CommaSpaceAt(x, p);
      assert s[p] == x[p];
      if p + 1 < |x| {
        assert s[p + 1] == x[p + 1];
      } else {
        assert s[p + 1] == ',';
      }
    }
  }

  /** A key free of ',' followed by a value free of ", " holds no ", ". */
  lemma KeyValueWithoutCommaSpace(key: string, v: string)
    requires ',' !in key && !Contains(v, ", ")
    ensures !Contains(key + v, ", ")
  {
    var s := key + v;
    forall p | 0 <= p <= |s| ensures !OccursAt(s, ", ", p) {
      CommaSpaceAt(s, p);
      if p < |key| {
        assert s[p] == key[p];
      } else {
        CommaSpaceAt(v, p - |key|);
        if p + 2 <= |s| {
          assert s[p] == v[p - |key|] && s[p + 1] == v[p - |key| + 1];
        }
      }
    }
  }

  /** Text free of ',' holds no ", ". */
  lemma NoCommaNoCommaSpace(v: string)
    requires ',' !in v
    ensures !Contains(v, ", ")
  {
    forall p | 0 <= p <= |v| ensures !OccursAt(v, ", ", p) {
      if p + 2 <= |v| {
        assert v[p..p + 2][0] == v[p];
      }
    }
  }

  /** `sep.join(parts)` */
  function Join(parts: seq<string>, sep: string): string
    decreases |parts|
  {
    if |parts| == 0 then ""
    else if |parts| == 1 then parts[0]
    else parts[0] + sep + Join(parts[1..], sep)
  }

  /** Pieces free of ", " joined by ", " split back into those pieces. */
  lemma {:induction false} SplitJoinCommaSpace(parts: seq<string>)
    requires |parts| > 0
    requires forall k :: 0 <= k < |parts| ==> !Contains(parts[k], ", ")
    ensures Split(Join(parts, ", "), ", ") == parts
    decreases |parts|
  {
    if |parts| == 1 {
      SplitWithoutSeparator(parts[0], ", ");
    } else {
      var rest := Join(parts[1..], ", ");
      assert Join(parts, ", ") == parts[0] + ", " + rest;
      CommaSpaceNotAcross(parts[0], rest);
      SplitAtFirst(parts[0], ", ", rest);
      SplitJoinCommaSpace(parts[1..]);
      assert [parts[0]] + parts[1..] == parts;
    }
  }

  lemma LastCons<T>(x: T, xs: seq<T>)
    requires |xs| > 0
    ensures Last([x] + xs) == Last(xs)
  {
  }

  /** The last element of a list: `xs[-1]`. */
  function Last<T>(xs: seq<T>): T
    requires |xs| > 0
  {
    xs[|xs| - 1]
  }

  /** At the first occurrence the split takes one piece, and the string is that piece, `sep` and the rest. */
  lemma SplitAtFound(s: string, sep: string, i: nat)
    requires sep != "" && Find(s, sep) == Some(i)
    ensures i + |sep| <= |s|
    ensures Split(s, sep) == [s[..i]] + Split(s[i + |sep|..], sep)
  {
  }

  /** The string is the text before the first occurrence, `sep` and the rest. */
  lemma CutAtFound(s: string, sep: string, i: nat)
    requires sep != "" && Find(s, sep) == Some(i)
    ensures s == s[..i] + sep + s[i + |sep|..]
  {
    Cut3(s, i, i + |sep|);
  }

  /** A sequence is its two slices either side of `i`. */
  lemma Cut2<T>(s: seq<T>, i: nat)
    requires i <= |s|
    ensures s == s[..i] + s[i..]
  {
  }

  /** A sequence is its three consecutive slices. */
  lemma Cut3<T>(s: seq<T>, i: nat, j: nat)
    requires i <= j <= |s|
    ensures s == s[..i] + s[i..j] + s[j..]
  {
  }

  /** A one-character separator occurs exactly where that character is. */
  lemma OccursCharAt(s: string, c: char, j: int)
    ensures OccursAt(s, [c], j) <==> 0 <= j < |s| && s[j] == c
  {
    if 0 <= j < |s| {
      assert s[j..j + 1][0] == s[j];
      assert s[j] == c ==> s[j..j + 1] == [c];
    }
  }

  /** The first occurrence of a single character `c`: no `c` before it. */
  lemma CharFound(s: string, c: char, i: nat)
    requires Find(s, [c]) == Some(i)
    ensures i < |s| && s[i] == c && c !in s[..i]
  {
    OccursCharAt(s, c, i);
    forall j | 0 <= j < i ensures s[..i][j] != c {
      OccursCharAt(s, c, j);
    }
  }

  lemma CharAbsent(s: string, c: char)
    requires Find(s, [c]).None?
    ensures c !in s
  {
    forall j | 0 <= j < |s| ensures s[j] != c {
      OccursCharAt(s, c, j);
    }
  }

  /** A piece before a separator joins as itself, the separator and the join of the rest. */
  lemma JoinCons(x: string, tail: seq<string>, sep: string)
    requires tail != []
    ensures Join([x] + tail, sep) == x + sep + Join(tail, sep)
  {
    assert ([x] + tail)[1..] == tail;
  }

  /** Joining the pieces of a split with the separator gives back the string. */
  lemma {:induction false} JoinSplit(s: string, sep: string)
    requires sep != ""
    ensures Join(Split(s, sep), sep) == s
    decreases |s|
  {
    match Find(s, sep)
    case None =>
    case Some(i) =>
      var rest := s[i + |sep|..];
      JoinSplit(rest, sep);
      SplitAtFound(s, sep, i);
      CutAtFound(s, sep, i);
      JoinCons(s[..i], Split(rest, sep), sep);
  }

  /** A prefix of `s` holds no occurrence that `s` itself does not have. */
  lemma PrefixOccurs(s: string, sep: string, i: nat, j: int)
    requires i <= |s| && !OccursAt(s, sep, j)
    ensures !OccursAt(s[..i], sep, j)
  {
    if 0 <= j && j + |sep| <= i {
      assert s[..i][j..j + |sep|] == s[j..j + |sep|];
    }
  }

  /** No piece of a split contains the separator. */
  lemma {:induction false} SplitPiecesAvoidSeparator(s: string, sep: string)
    requires sep != ""
    ensures forall k :: 0 <= k < |Split(s, sep)| ==> !Contains(Split(s, sep)[k], sep)
    decreases |s|
  {
    match Find(s, sep)
    case None =>
    case Some(i) =>
      SplitPiecesAvoidSeparator(s[i + |sep|..], sep);
      SplitAtFound(s, sep, i);
      forall j | 0 <= j <= i ensures !OccursAt(s[..i], sep, j) {
        if j < i {
          PrefixOccurs(s, sep, i, j);
        }
      }
  }

  /** Splitting on one character cuts at every occurrence of it: there is one piece more than there are occurrences. */
  lemma {:induction false} SplitCharCount(s: string, c: char)
    ensures |Split(s, [c])| - 1 == multiset(s)[c]
    decreases |s|
  {
    match Find(s, [c])
    case None =>
      CharAbsent(s, c);
    case Some(i) =>
      CharFound(s, c, i);
      SplitAtFound(s, [c], i);
      CutAtFound(s, [c], i);
      SplitCharCount(s[i + 1..], c);
      assert multiset(s) == multiset(s[..i]) + multiset([c]) + multiset(s[i + 1..]);
  }

  // ---------------------------------------------------------------- text after the last '='

  /** Where the text after the last `c` among the first `n` characters of `s` starts (0 when there is none). */
  function AfterLastStart(s: string, c: char, n: nat): (k: nat)
    requires n <= |s|
    ensures k <= n
    ensures forall j :: k <= j < n ==> s[j] != c
    ensures k > 0 ==> s[k - 1] == c
  {
    if n == 0 then 0
    else if s[n - 1] == c then n
    else AfterLastStart(s, c, n - 1)
  }

  /** The longest suffix of `s` free of `c`: what follows the last `c`, or all of `s`. */
  function AfterLast(s: string, c: char): (r: string)
    ensures c !in r
    ensures |r| <= |s| && r == s[|s| - |r|..]
    ensures |r| < |s| ==> s[|s| - |r| - 1] == c
  {
    s[AfterLastStart(s, c, |s|)..]
  }

  /** `s.split(c)[-1]` is the text after the last `c` in `s`. */
  lemma {:induction false} LastPieceIsAfterLast(s: string, c: char)
    ensures Last(Split(s, [c])) == AfterLast(s, c)
    decreases |s|
  {
    var f := Find(s, [c]);
    if f.None? {
      CharAbsent(s, c);
      AfterLastAbsent(s, c);
    } else {
      var i := f.value;
      var rest := s[i + 1..];
      LastPieceIsAfterLast(rest, c);
      SplitAtFound(s, [c], i);
      LastCons(s[..i], Split(rest, [c]));
      CharFound(s, c, i);
      AfterLastOfFound(s, c, i);
    }
  }

  /** What follows the last `c` of `s` lies after any occurrence of `c`. */
  lemma AfterLastOfFound(s: string, c: char, i: nat)
    requires i < |s| && s[i] == c
    ensures AfterLast(s, c) == AfterLast(s[i + 1..], c)
  {
    var head, tail := s[..i + 1], s[i + 1..];
    Cut2(s, i + 1);
    assert head[i] == c;
    AfterLastAppend(head, tail, c);
  }

  lemma AfterLastAbsent(s: string, c: char)
    requires c !in s
    ensures AfterLast(s, c) == s
  {
    assert forall j :: 0 <= j < |s| ==> s[j] != c;
  }

  /** When `c` ends `p`, the scan back over `p + q` stops within `q` or just after `p`. */
  lemma {:induction false} AfterLastStartAppend(p: string, q: string, c: char, m: nat)
    requires p != "" && p[|p| - 1] == c && m <= |q|
    ensures AfterLastStart(p + q, c, |p| + m) == |p| + AfterLastStart(q, c, m)
    decreases m
  {
    if m > 0 {
      assert (p + q)[|p| + m - 1] == q[m - 1];
      AfterLastStartAppend(p, q, c, m - 1);
    } else {
      assert (p + q)[|p| - 1] == c;
    }
  }

  /** When `c` ends `p`, what follows the last `c` of `p + q` lies in `q`. */
  lemma AfterLastAppend(p: string, q: string, c: char)
    requires p != "" && p[|p| - 1] == c
    ensures AfterLast(p + q, c) == AfterLast(q, c)
  {
    var k := AfterLastStart(q, c, |q|);
    AfterLastStartAppend(p, q, c, |q|);
    assert (p + q)[|p| + k..] == q[k..];
  }

  // ---------------------------------------------------------------- split()

  /** `c.isspace()`: the characters Python's argument-less `split()` separates on. */
  predicate IsSpace(c: char) {
    || ('\t' <= c <= '\r') || ('\U{1C}' <= c <= ' ') || c == '\U{85}' || c == '\U{A0}'
    || c == '\U{1680}' || ('\U{2000}' <= c <= '\U{200A}') || c == '\U{2028}' || c == '\U{2029}'
    || c == '\U{202F}' || c == '\U{205F}' || c == '\U{3000}'
  }

  predicate NoSpace(w: string) {
    forall j :: 0 <= j < |w| ==> !IsSpace(w[j])
  }

  /** The length of the run of non-space characters that starts `s`. */
  function WordLength(s: string): (k: nat)
    ensures k <= |s|
    ensures NoSpace(s[..k])
    ensures k < |s| ==> IsSpace(s[k])
  {
    if s == "" || IsSpace(s[0]) then 0 else 1 + WordLength(s[1..])
  }

  /** `s.split()`: the maximal runs of non-space characters, in order. */
  function Words(s: string): (r: seq<string>)
    ensures forall k :: 0 <= k < |r| ==> r[k] != "" && NoSpace(r[k])
    decreases |s|
  {
    if s == "" then []
    else if IsSpace(s[0]) then Words(s[1..])
    else
      var k := WordLength(s);
      [s[..k]] + Words(s[k..])
  }

  function Concat(parts: seq<string>): string {
    if parts == [] then "" else parts[0] + Concat(parts[1..])
  }

  /** `s` without its whitespace. */
  function RemoveSpaces(s: string): (r: string) {
    if s == "" then "" else (if IsSpace(s[0]) then "" else [s[0]]) + RemoveSpaces(s[1..])
  }

  lemma {:induction false} RemoveSpacesAppend(a: string, b: string)
    ensures RemoveSpaces(a + b) == RemoveSpaces(a) + RemoveSpaces(b)
    decreases |a|
  {
    if a != "" {
      assert (a + b)[1..] == a[1..] + b;
      RemoveSpacesAppend(a[1..], b);
    } else {
      assert a + b == b;
    }
  }

  lemma {:induction false} RemoveSpacesOfWord(w: string)
    requires NoSpace(w)
    ensures RemoveSpaces(w) == w
    decreases |w|
  {
    if w != "" {
      RemoveSpacesOfWord(w[1..]);
    }
  }

  /** The words of `s`, run together, are exactly the non-space characters of `s`. */
  lemma {:induction false} WordsCoverNonSpace(s: string)
    ensures Concat(Words(s)) == RemoveSpaces(s)
    decreases |s|
  {
    if s == "" {
    } else if IsSpace(s[0]) {
      WordsCoverNonSpace(s[1..]);
    } else {
      var k := WordLength(s);
      WordsCoverNonSpace(s[k..]);
      assert s == s[..k] + s[k..];
      RemoveSpacesAppend(s[..k], s[k..]);
      RemoveSpacesOfWord(s[..k]);
    }
  }

  /** Two pieces put together are cut apart again at the length of the first. */
  lemma AppendSlices<T>(a: seq<T>, b: seq<T>)
    ensures (a + b)[..|a|] == a && (a + b)[|a|..] == b
  {
  }

  lemma NoSpaceAppend(a: string, b: string)
    requires NoSpace(a) && NoSpace(b)
    ensures NoSpace(a + b)
  {
    assert forall j :: |a| <= j < |a + b| ==> (a + b)[j] == b[j - |a|];
  }

  /** A run of non-space characters followed by whitespace or the end is a whole word. */
  lemma {:induction false} WordLengthOfWord(w: string, b: string)
    requires NoSpace(w)
    requires b == "" || IsSpace(b[0])
    ensures WordLength(w + b) == |w|
    decreases |w|
  {
    if w == "" {
      assert w + b == b;
    } else {
      assert (w + b)[0] == w[0];
      assert (w + b)[1..] == w[1..] + b;
      WordLengthOfWord(w[1..], b);
    }
  }

  /** `split()` takes a word that ends at whitespace or at the end of the text as one word. */
  lemma WordsOfWord(w: string, b: string)
    requires w != "" && NoSpace(w)
    requires b == "" || IsSpace(b[0])
    ensures Words(w + b) == [w] + Words(b)
  {
    WordLengthOfWord(w, b);
    AppendSlices(w, b);
    assert (w + b)[0] == w[0];
  }

  /** `split()` skips whitespace in front of the text. */
  lemma {:induction false} WordsAfterSpaces(g: string, b: string)
    requires forall j :: 0 <= j < |g| ==> IsSpace(g[j])
    ensures Words(g + b) == Words(b)
    decreases |g|
  {
    if g == "" {
      assert g + b == b;
    } else {
      assert (g + b)[0] == g[0];
      assert (g + b)[1..] == g[1..] + b;
      WordsAfterSpaces(g[1..], b);
    }
  }

  /**
   * `split()` undoes a join: non-empty, space-free words joined by a non-empty
   * run of whitespace split back into exactly those words.
   */
  lemma {:induction false} WordsOfJoin(ws: seq<string>, gap: string)
    requires forall k :: 0 <= k < |ws| ==> ws[k] != "" && NoSpace(ws[k])
    requires gap != "" && forall j :: 0 <= j < |gap| ==> IsSpace(gap[j])
    ensures Words(Join(ws, gap)) == ws
    decreases |ws|
  {
    if |ws| == 1 {
      WordsOfWord(ws[0], "");
      assert ws[0] + "" == ws[0];
    } else if |ws| > 1 {
      var rest := Join(ws[1..], gap);
      WordsOfJoin(ws[1..], gap);
      assert Join(ws, gap) == ws[0] + (gap + rest);
      WordsOfWord(ws[0], gap + rest);
      WordsAfterSpaces(gap, rest);
      assert ws == [ws[0]] + ws[1..];
    }
  }

  // ---------------------------------------------------------------- replace

  /** `s.replace(c, sub)` for a one-character `c`. */
  function ReplaceChar(s: string, c: char, sub: string): (r: string)
    decreases |s|
  {
    if s == "" then ""
    else (if s[0] == c then sub else [s[0]]) + ReplaceChar(s[1..], c, sub)
  }

  // ---------------------------------------------------------------- str(n)

  function DigitChar(d: nat): (c: char)
    requires d < 10
    ensures '0' <= c <= '9'
  {
    "0123456789"[d]
  }

  predicate IsDigit(c: char) {
    '0' <= c <= '9'
  }

  function DigitValue(c: char): (d: nat)
    requires IsDigit(c)
    ensures d < 10
  {
    (c as int) - ('0' as int)
  }

  /** `str(n)` for a natural number: its decimal digits, most significant first. */
  function NatToString(n: nat): (r: string)
    ensures r != "" && forall k :: 0 <= k < |r| ==> IsDigit(r[k])
  {
    if n < 10 then [DigitChar(n)] else NatToString(n / 10) + [DigitChar(n % 10)]
  }

  /** `str(i)` for any integer. */
  function IntToString(i: int): string {
    if i < 0 then "-" + NatToString(-i) else NatToString(i)
  }

  /** The number a string of decimal digits denotes. */
  function DigitsValue(ds: string): nat
    requires forall k :: 0 <= k < |ds| ==> IsDigit(ds[k])
  {
    if ds == "" then 0 else DigitsValue(ds[..|ds| - 1]) * 10 + DigitValue(ds[|ds| - 1])
  }

  /** Reading `str(n)` back as decimal digits gives `n`. */
  lemma {:induction false} NatToStringValue(n: nat)
    ensures DigitsValue(NatToString(n)) == n
  {
    if n >= 10 {
      NatToStringValue(n / 10);
      var s := NatToString(n);
      assert s[..|s| - 1] == NatToString(n / 10);
    }
  }

  /** Distinct numbers have distinct decimal forms. */
  lemma NatToStringInjective(a: nat, b: nat)
    requires NatToString(a) == NatToString(b)
    ensures a == b
  {
    NatToStringValue(a);
    NatToStringValue(b);
  }

  // ---------------------------------------------------------------- int(s)

  /**
   * The characters `int()` strips around its argument: non-ASCII whitespace is
   * first mapped to a space, and then ASCII space, tab, newline, vertical tab,
   * form feed and carriage return are skipped; U+001C to U+001F are not.
   */
  predicate IntSpace(c: char) {
    IsSpace(c) && !('\U{1C}' <= c <= '\U{1F}')
  }

  function StripIntSpace(s: string): (r: string)
    ensures |r| <= |s|
    decreases |s|
  {
    if s == "" then ""
    else if IntSpace(s[0]) then StripIntSpace(s[1..])
    else if IntSpace(s[|s| - 1]) then StripIntSpace(s[..|s| - 1])
    else s
  }

  /** Decimal digits, with single underscores allowed between two digits: a digit, then digits each optionally preceded by one '_'. */
  predicate DigitGroups(d: string)
    decreases |d|
  {
    && d != ""
    && IsDigit(d[0])
    && (|d| == 1 || DigitGroups(d[1..]) || (d[1] == '_' && DigitGroups(d[2..])))
  }

  /** Digit groups hold only digits and underscores. */
  lemma {:induction false} DigitGroupsChars(d: string)
    requires DigitGroups(d)
    ensures forall k :: 0 <= k < |d| ==> IsDigit(d[k]) || d[k] == '_'
    decreases |d|
  {
    if |d| > 1 {
      if DigitGroups(d[1..]) {
        DigitGroupsChars(d[1..]);
        assert forall k :: 1 <= k < |d| ==> d[k] == d[1..][k - 1];
      } else {
        DigitGroupsChars(d[2..]);
        assert forall k :: 2 <= k < |d| ==> d[k] == d[2..][k - 2];
      }
    }
  }

  /** A non-empty run of plain digits is a digit group. */
  lemma {:induction false} DigitsAreGroups(ds: string)
    requires ds != "" && AllDigits(ds)
    ensures DigitGroups(ds)
    decreases |ds|
  {
    if |ds| > 1 {
      assert AllDigits(ds[1..]) by {
        assert forall k :: 0 <= k < |ds| - 1 ==> ds[1..][k] == ds[k + 1];
      }
      DigitsAreGroups(ds[1..]);
    }
  }

  function RemoveUnderscores(d: string): (r: string)
    requires forall k :: 0 <= k < |d| ==> IsDigit(d[k]) || d[k] == '_'
    ensures forall k :: 0 <= k < |r| ==> IsDigit(r[k])
    decreases |d|
  {
    if d == "" then ""
    else (if d[0] == '_' then "" else [d[0]]) + RemoveUnderscores(d[1..])
  }

  /** `int(s)`: `None` where Python raises ValueError. */
  function ParseInt(s: string): (r: Option<int>)
  {
    ParseSigned(StripIntSpace(s))
  }

  /** `int()` of text already stripped: an optional sign, then digit groups. */
  function ParseSigned(t: string): Option<int>
  {
    var negative := t != "" && t[0] == '-';
    var digits := if t != "" && (t[0] == '-' || t[0] == '+') then t[1..] else t;
    if DigitGroups(digits) then
      DigitGroupsChars(digits);
      var v: int := DigitsValue(RemoveUnderscores(digits));
      Some(if negative then -v else v)
    else None
  }

  lemma {:induction false} RemoveUnderscoresOfDigits(d: string)
    requires forall k :: 0 <= k < |d| ==> IsDigit(d[k])
    ensures RemoveUnderscores(d) == d
    decreases |d|
  {
    if d != "" {
      RemoveUnderscoresOfDigits(d[1..]);
    }
  }

  lemma StripNonSpace(s: string)
    requires s != "" && !IntSpace(s[0]) && !IntSpace(s[|s| - 1])
    ensures StripIntSpace(s) == s
  {
  }

  predicate AllDigits(ds: string) {
    forall k :: 0 <= k < |ds| ==> IsDigit(ds[k])
  }

  /** `int()` of a plain, non-empty run of digits is the number they denote. */
  lemma ParseDigits(ds: string)
    requires ds != "" && AllDigits(ds)
    ensures ParseInt(ds) == Some(DigitsValue(ds))
  {
    StripNonSpace(ds);
    DigitsAreGroups(ds);
    RemoveUnderscoresOfDigits(ds);
    assert ParseSigned(ds) == Some(DigitsValue(ds));
  }

  /** `int()` of a minus sign and a non-empty run of digits is the negated number. */
  lemma ParseNegativeDigits(ds: string)
    requires ds != "" && AllDigits(ds)
    ensures ParseInt("-" + ds) == Some(0 - DigitsValue(ds))
  {
    var s := "-" + ds;
    assert s[0] == '-' && s[|s| - 1] == ds[|ds| - 1];
    StripNonSpace(s);
    ParseSignedNegative(ds);
  }

  lemma ParseSignedNegative(ds: string)
    requires ds != "" && AllDigits(ds)
    ensures ParseSigned("-" + ds) == Some(0 - DigitsValue(ds))
  {
    assert ("-" + ds)[1..] == ds;
    DigitsAreGroups(ds);
    RemoveUnderscoresOfDigits(ds);
  }

  /** `int(str(i)) == i` for every integer. */
  lemma IntToStringRoundTrip(i: int)
    ensures ParseInt(IntToString(i)) == Some(i)
  {
    var n: nat := if i < 0 then -i else i;
    NatToStringValue(n);
    if i < 0 {
      ParseNegativeDigits(NatToString(n));
    } else {
      ParseDigits(NatToString(n));
    }
  }

  // ---------------------------------------------------------------- text files

  /**
   * The newline translation of a file opened for reading in text mode:
   * "\r\n" and a lone "\r" both become "\n".
   */
  function TranslateNewlines(raw: string): (t: string)
    decreases |raw|
  {
    if raw == "" then ""
    else if raw[0] == '\r' then
      "\n" + TranslateNewlines(if |raw| > 1 && raw[1] == '\n' then raw[2..] else raw[1..])
    else [raw[0]] + TranslateNewlines(raw[1..])
  }

  /** The length of the first line of `t`: up to and including the first '\n', or all of `t`. */
  function LineLength(t: string): (k: nat)
    requires t != ""
    ensures 0 < k <= |t|
    ensures forall j :: 0 <= j < k - 1 ==> t[j] != '\n'
    ensures k < |t| ==> t[k - 1] == '\n'
  {
    if t[0] == '\n' || |t| == 1 then 1 else 1 + LineLength(t[1..])
  }

  /** The lines a `for line in f` loop yields over translated text `t`, each keeping its '\n'. */
  function SplitLines(t: string): (lines: seq<string>)
    ensures forall k :: 0 <= k < |lines| ==> lines[k] != ""
    decreases |t|
  {
    if t == "" then [] else
      var k := LineLength(t);
      [t[..k]] + SplitLines(t[k..])
  }

  /** The lines of a file whose content is `raw`, opened for reading in text mode. */
  function FileLines(raw: string): seq<string> {
    SplitLines(TranslateNewlines(raw))
  }

  predicate NoLineBreak(s: string) {
    '\n' !in s && '\r' !in s
  }

  lemma {:induction false} TranslateAppend(a: string, b: string)
    requires '\r' !in a
    ensures TranslateNewlines(a + b) == a + TranslateNewlines(b)
    decreases |a|
  {
    if a == "" {
      assert a + b == b;
    } else {
      assert (a + b)[1..] == a[1..] + b;
      TranslateAppend(a[1..], b);
    }
  }

  /** Text free of '\r' is read back exactly. */
  lemma TranslateIdentity(a: string)
    requires '\r' !in a
    ensures TranslateNewlines(a) == a
  {
    TranslateAppend(a, "");
    assert a + "" == a;
  }

  /** A line ending in its only '\n' is split off as one line. */
  lemma SplitLinesCons(line: string, rest: string)
    requires '\n' !in line
    ensures SplitLines(line + "\n" + rest) == [line + "\n"] + SplitLines(rest)
  {
    var t := line + "\n" + rest;
    var k := LineLength(t);
    assert t[|line|] == '\n';
    assert forall j :: 0 <= j < |line| ==> t[j] == line[j];
    assert k == |line| + 1;
    assert t[..k] == line + "\n";
    assert t[k..] == rest;
  }
}
