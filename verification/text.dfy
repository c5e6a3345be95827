/**
 * The Python string operations the diagnostic pipeline relies on: substring search
 * (`in`, `str.find`), `str.split` with a separator, `str.join` and `str.strip`.
 */
module Text {
  import opened Wrappers

  /** `pat` occurs in `s` starting at position `i`. */
  predicate OccursAt(s: string, pat: string, i: nat) {
    i + |pat| <= |s| && s[i..i + |pat|] == pat
  }

  /** A text occurs in any text it ends. */
  lemma OccursAtEnd(s: string, t: string)
    ensures OccursAt(s + t, t, |s|)
  {
    assert (s + t)[|s|..|s| + |t|] == t;
  }

  /** An occurrence survives appending text. */
  lemma OccursExtend(s: string, t: string, pat: string, i: nat)
    requires OccursAt(s, pat, i)
    ensures OccursAt(s + t, pat, i)
  {
    assert (s + t)[i..i + |pat|] == s[i..i + |pat|];
  }

  /** Every occurrence survives appending text. */
  lemma OccursExtendAll(s: string, t: string, pat: string)
    ensures forall q: nat :: OccursAt(s, pat, q) ==> OccursAt(s + t, pat, q)
  {
    forall q: nat | OccursAt(s, pat, q) ensures OccursAt(s + t, pat, q) {
      OccursExtend(s, t, pat, q);
    }
  }

  /** An occurrence that ends within a prefix is an occurrence in the prefix. */
  lemma OccursInPrefixAll(s: string, t: string, pat: string)
    ensures forall q: nat :: q + |pat| <= |s| && OccursAt(s + t, pat, q) ==> OccursAt(s, pat, q)
  {
    forall q: nat | q + |pat| <= |s| && OccursAt(s + t, pat, q) ensures OccursAt(s, pat, q) {
      assert (s + t)[q..q + |pat|] == s[q..q + |pat|];
    }
  }

  /** An occurrence inside an occurrence. */
  lemma OccursWithin(s: string, part: string, pat: string, o: nat, i: nat)
    requires OccursAt(s, part, o) && OccursAt(part, pat, i)
    ensures OccursAt(s, pat, o + i)
  {
    forall m | 0 <= m < |pat|
      ensures s[o + i + m] == pat[m]
    {
      assert s[o..o + |part|][i + m] == part[i + m];
    }
  }

  /** The first occurrence of `pat` in `s` at or after `from` (Python's `s.find(pat, from)`). */
  function IndexOfFrom(s: string, pat: string, from: nat): (r: Option<nat>)
    requires from <= |s|
    ensures r.Some? ==> from <= r.value && OccursAt(s, pat, r.value)
    ensures r.Some? ==> forall q :: from <= q < r.value ==> !OccursAt(s, pat, q)
    ensures r.None? ==> forall q: nat :: from <= q ==> !OccursAt(s, pat, q)
    decreases |s| - from
  {
    if OccursAt(s, pat, from) then Some(from)
    else if from == |s| then None
    else IndexOfFrom(s, pat, from + 1)
  }

  /** The first occurrence of `pat` in `s`, if any. */
  function IndexOf(s: string, pat: string): (r: Option<nat>)
    ensures r.Some? ==> OccursAt(s, pat, r.value)
    ensures r.Some? ==> forall q: nat :: q < r.value ==> !OccursAt(s, pat, q)
    ensures r.None? ==> forall q: nat :: !OccursAt(s, pat, q)
  {
    IndexOfFrom(s, pat, 0)
  }

  /** Python's `pat in s`. */
  predicate Contains(s: string, pat: string) {
    IndexOf(s, pat).Some?
  }

  /** If `pat` occurs at `m` and no position before `m` holds `pat`'s first character,
      then `m` is the first occurrence. */
  lemma IndexOfAt(s: string, pat: string, m: nat)
    requires |pat| > 0 && OccursAt(s, pat, m)
    requires forall q :: 0 <= q < m ==> s[q] != pat[0]
    ensures IndexOf(s, pat) == Some(m)
  {
    IndexOfNotBefore(s, pat, m);
    assert !OccursAt(s, pat, m) ==> false;
  }

  /** If no position before `m` holds `pat`'s first character, `pat` does not occur before `m`. */
  lemma IndexOfNotBefore(s: string, pat: string, m: nat)
    requires |pat| > 0
    requires forall q :: 0 <= q < m && q < |s| ==> s[q] != pat[0]
    ensures IndexOf(s, pat).None? || IndexOf(s, pat).value >= m
  {
    var r := IndexOf(s, pat);
    if r.Some? {
      var i := r.value;
      assert s[i..i + |pat|][0] == s[i];
    }
  }

  /** A text lacking `pat`'s first character does not contain `pat`. */
  lemma IndexOfAbsentChar(s: string, pat: string)
    requires |pat| > 0 && pat[0] !in s
    ensures IndexOf(s, pat).None?
  {
    IndexOfNotBefore(s, pat, |s| + 1);
  }

  /** Each piece but the last ends where the first occurrence of `sep` after its start
      begins: appending `sep` to it puts the first `sep` right after it. */
  predicate EndsAtFirst(parts: seq<string>, sep: string) {
    |parts| <= 1
    || (IndexOf(parts[0] + sep, sep) == Some(|parts[0]|) && EndsAtFirst(parts[1..], sep))
  }

  /** The last of the pieces holds no `sep`. */
  predicate LastFree(parts: seq<string>, sep: string) {
    |parts| >= 1 && if |parts| == 1 then !Contains(parts[0], sep) else LastFree(parts[1..], sep)
  }

  /** Python's `s.split(sep)` for a non-empty separator: the pieces between successive
      non-overlapping occurrences of `sep`, scanning from the left. Joining the pieces
      gives the text back, each piece but the last ends at the first `sep` after it, and
      the last piece holds no `sep`. */
  function Split(s: string, sep: string): (parts: seq<string>)
    requires |sep| > 0
    ensures |parts| >= 1
    ensures Join(parts, sep) == s
    ensures EndsAtFirst(parts, sep)
    ensures LastFree(parts, sep)
    ensures IndexOf(s, sep).None? ==> parts == [s]
    ensures IndexOf(s, sep).Some? ==> |parts| >= 2 && parts[0] == s[..IndexOf(s, sep).value]
    decreases |s|
  {
    match IndexOf(s, sep)
    case None => [s]
    case Some(i) =>
      var rest := Split(s[i + |sep|..], sep);
      JoinCons(s[..i], rest, sep);
      AroundOccurrence(s, sep, i);
      FirstOccurrencePrefix(s, sep, i);
      EndsAtFirstCons(s[..i], rest, sep);
      [s[..i]] + rest
  }

  /** A text is what precedes an occurrence, the occurrence, and what follows it. */
  lemma AroundOccurrence(s: string, pat: string, i: nat)
    requires OccursAt(s, pat, i)
    ensures s[..i] + pat + s[i + |pat|..] == s
  {
    assert s == s[..i] + s[i..i + |pat|] + s[i + |pat|..];
  }

  /** Joining a piece in front of at least one more. */
  lemma JoinCons(p: string, rest: seq<string>, sep: string)
    requires |rest| >= 1
    ensures Join([p] + rest, sep) == p + sep + Join(rest, sep)
  {
    assert ([p] + rest)[1..] == rest;
  }

  /** A piece that ends at the first separator can go in front of pieces that do. */
  lemma EndsAtFirstCons(p: string, rest: seq<string>, sep: string)
    requires IndexOf(p + sep, sep) == Some(|p|) && EndsAtFirst(rest, sep)
    ensures EndsAtFirst([p] + rest, sep)
  {
    assert ([p] + rest)[1..] == rest;
  }


  /** The first occurrence of `pat` in `s` is also the first in the prefix of `s` that it
      ends. */
  lemma FirstOccurrencePrefix(s: string, pat: string, i: nat)
    requires IndexOf(s, pat) == Some(i)
    ensures IndexOf(s[..i] + pat, pat) == Some(i)
  {
    var t := s[..i] + pat;
    assert s == t + s[i + |pat|..];
    OccursExtendAll(t, s[i + |pat|..], pat);
    OccursAtEnd(s[..i], pat);
    FirstOccurrence(t, pat, i);
  }

  /** An occurrence with none before it is the first. */
  lemma FirstOccurrence(s: string, pat: string, m: nat)
    requires OccursAt(s, pat, m)
    requires forall q: nat :: q < m ==> !OccursAt(s, pat, q)
    ensures IndexOf(s, pat) == Some(m)
  {
  }

  /** Python's `sep.join(parts)`. */
  function Join(parts: seq<string>, sep: string): string {
    if |parts| == 0 then ""
    else if |parts| == 1 then parts[0]
    else parts[0] + sep + Join(parts[1..], sep)
  }

  /** Splitting a join on a one-character separator that no part contains gives the parts back. */
  lemma {:induction false} SplitJoin(parts: seq<string>, sep: string)
    requires |parts| >= 1 && |sep| == 1
    requires forall k :: 0 <= k < |parts| ==> sep[0] !in parts[k]
    ensures Split(Join(parts, sep), sep) == parts
    decreases |parts|
  {
    var s := Join(parts, sep);
    if |parts| == 1 {
      IndexOfAbsentChar(s, sep);
    } else {
      var p := parts[0];
      var rest := Join(parts[1..], sep);
      assert s == p + sep + rest;
      assert OccursAt(s, sep, |p|) by { assert s[|p|..|p| + 1] == sep; }
      forall q | 0 <= q < |p|
        ensures s[q] != sep[0]
      {
        assert s[q] == p[q];
      }
      IndexOfAt(s, sep, |p|);
      assert s[|p| + |sep|..] == rest;
      assert s[..|p|] == p;
      SplitJoin(parts[1..], sep);
      assert [p] + parts[1..] == parts;
    }
  }

  /** Lines written one after another, each followed by a newline (a text file's body). */
  function Terminated(lines: seq<string>): string {
    if |lines| == 0 then "" else lines[0] + "\n" + Terminated(lines[1..])
  }

  /** A newline-terminated text opens with its first line and its newline, and ends with
      a newline. */
  lemma {:induction false} TerminatedEnds(lines: seq<string>)
    requires |lines| > 0
    ensures var r := Terminated(lines);
      && |r| > |lines[0]| && r[..|lines[0]| + 1] == lines[0] + "\n" && r[|r| - 1] == '\n'
    decreases |lines|
  {
    var rest := Terminated(lines[1..]);
    if |lines| > 1 {
      TerminatedEnds(lines[1..]);
    }
    assert (lines[0] + "\n" + rest)[..|lines[0]| + 1] == lines[0] + "\n";
  }

  /** A newline-terminated sequence of lines is the join of the lines and a final empty piece. */
  lemma {:induction false} TerminatedIsJoin(lines: seq<string>)
    ensures Terminated(lines) == Join(lines + [""], "\n")
    decreases |lines|
  {
    if |lines| == 0 {
    } else {
      TerminatedIsJoin(lines[1..]);
      assert (lines + [""])[1..] == lines[1..] + [""];
    }
  }

  /** Splitting a newline-terminated text on newlines recovers its lines, plus the empty
      piece after the final newline. */
  lemma SplitTerminated(lines: seq<string>)
    requires forall k :: 0 <= k < |lines| ==> '\n' !in lines[k]
    ensures Split(Terminated(lines), "\n") == lines + [""]
  {
    TerminatedIsJoin(lines);
    var parts := lines + [""];
    forall k | 0 <= k < |parts|
      ensures "\n"[0] !in parts[k]
    {
      if k < |lines| { assert parts[k] == lines[k]; }
    }
    SplitJoin(parts, "\n");
  }

  /** The characters Python's `str.strip()` and `float()` treat as white space. */
  predicate IsSpace(c: char) {
    || c == ' ' || c == '\t' || c == '\n' || c == '\r'
    || c == '\U{000B}' || c == '\U{000C}'
    || ('\U{001C}' <= c <= '\U{001F}')
    || c == '\U{0085}' || c == '\U{00A0}' || c == '\U{1680}'
    || ('\U{2000}' <= c <= '\U{200A}')
    || c == '\U{2028}' || c == '\U{2029}' || c == '\U{202F}' || c == '\U{205F}' || c == '\U{3000}'
  }

  /** Every character of `s` is white space (vacuously true of the empty string). */
  predicate AllSpace(s: string) {
    forall k :: 0 <= k < |s| ==> IsSpace(s[k])
  }

  /** Every character of `s[i..j]` is white space, stated on `s` itself. */
  predicate SpaceBetween(s: string, i: nat, j: nat)
    requires i <= j <= |s|
  {
    forall k :: i <= k < j ==> IsSpace(s[k])
  }

  /** The white space of a stretch of `s` is the white space of its slice. */
  lemma SpaceBetweenSlice(s: string, i: nat, j: nat)
    requires i <= j <= |s|
    ensures SpaceBetween(s, i, j) <==> AllSpace(s[i..j])
  {
    if SpaceBetween(s, i, j) {
      forall k | 0 <= k < j - i ensures IsSpace(s[i..j][k]) { assert s[i..j][k] == s[i + k]; }
    }
    if AllSpace(s[i..j]) {
      forall k | i <= k < j ensures IsSpace(s[k]) { assert s[k] == s[i..j][k - i]; }
    }
  }

  /** Where the white space that starts at `i` ends: `len(s) - len(s[i:].lstrip())`. */
  function LeadEnd(s: string, i: nat): (e: nat)
    requires i <= |s|
    ensures i <= e <= |s| && SpaceBetween(s, i, e)
    ensures e < |s| ==> !IsSpace(s[e])
    decreases |s| - i
  {
    if i < |s| && IsSpace(s[i]) then LeadEnd(s, i + 1) else i
  }

  /** Where the white space that ends at `j`, and stays after `lo`, starts:
      `len(s[lo:j].rstrip())` measured from the start of `s`. */
  function TrailStart(s: string, lo: nat, j: nat): (b: nat)
    requires lo <= j <= |s|
    ensures lo <= b <= j && SpaceBetween(s, b, j)
    ensures b > lo ==> !IsSpace(s[b - 1])
    decreases j
  {
    if j > lo && IsSpace(s[j - 1]) then TrailStart(s, lo, j - 1) else j
  }

  /** Python's `s.strip()`: `s` with leading and trailing white space removed. */
  function Strip(s: string): (r: string)
    ensures exists i, j :: 0 <= i <= j <= |s| && r == s[i..j] && AllSpace(s[..i]) && AllSpace(s[j..])
    ensures |r| > 0 ==> !IsSpace(r[0]) && !IsSpace(r[|r| - 1])
    ensures r == [] <==> AllSpace(s)
    ensures (forall k :: 0 <= k < |s| ==> !IsSpace(s[k])) ==> r == s
  {
    var i := LeadEnd(s, 0);
    var j := TrailStart(s, i, |s|);
    StripEdges(s, i, j);
    s[i..j]
  }

  /** The facts `Strip` promises, about the slice it takes. */
  lemma StripEdges(s: string, i: nat, j: nat)
    requires i == LeadEnd(s, 0) && j == TrailStart(s, i, |s|)
    ensures AllSpace(s[..i]) && AllSpace(s[j..])
    ensures i < j ==> !IsSpace(s[i]) && !IsSpace(s[j - 1])
    ensures i == j <==> AllSpace(s)
    ensures (forall k :: 0 <= k < |s| ==> !IsSpace(s[k])) ==> i == 0 && j == |s|
  {
    SpaceBetweenSlice(s, 0, i);
    SpaceBetweenSlice(s, j, |s|);
    assert s[0..i] == s[..i] && s[j..|s|] == s[j..];
    if i == j {
      assert SpaceBetween(s, 0, |s|);
      SpaceBetweenSlice(s, 0, |s|);
      assert s[0..|s|] == s;
    } else {
      assert !IsSpace(s[i]);
    }
  }

  /** The stripped text is the only slice with white space outside it and none at its
      edges. */
  lemma StripUnique(s: string, i: nat, j: nat)
    requires i <= j <= |s| && AllSpace(s[..i]) && AllSpace(s[j..])
    requires i < j ==> !IsSpace(s[i]) && !IsSpace(s[j - 1])
    ensures Strip(s) == s[i..j]
  {
    SpaceBetweenSlice(s, 0, i);
    SpaceBetweenSlice(s, j, |s|);
    assert s[0..i] == s[..i] && s[j..|s|] == s[j..];
    var d := LeadEnd(s, 0);
    if i == j {
      assert SpaceBetween(s, 0, |s|) by {
        forall k | 0 <= k < |s| ensures IsSpace(s[k]) {
          if k >= j { assert SpaceBetween(s, j, |s|); }
        }
      }
      SpaceBetweenSlice(s, 0, |s|);
      assert s[0..|s|] == s;
    } else {
      assert !IsSpace(s[i]) && SpaceBetween(s, 0, i) && SpaceBetween(s, 0, d);
      assert d == i;
      var e := TrailStart(s, d, |s|);
      assert !IsSpace(s[j - 1]) && SpaceBetween(s, j, |s|) && SpaceBetween(s, e, |s|);
      assert e == j;
    }
  }
}
