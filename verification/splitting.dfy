/**
 * What characterises the pieces of `Text.Split`: the last piece holds no separator,
 * and the pieces are the only ones that join to the text with each but the last
 * ending at the first separator after it.
 */
module Splitting {
  import opened Wrappers
  import opened Text

  /** The last piece of a split holds no separator. */
  lemma SplitLast(s: string, sep: string)
    requires |sep| > 0
    ensures var parts := Split(s, sep); !Contains(parts[|parts| - 1], sep)
  {
    LastFreeLast(Split(s, sep), sep);
  }

  /** `LastFree` speaks of the last piece. */
  lemma {:induction false} LastFreeLast(parts: seq<string>, sep: string)
    requires LastFree(parts, sep)
    ensures !Contains(parts[|parts| - 1], sep)
    decreases |parts|
  {
    if |parts| > 1 {
      LastFreeLast(parts[1..], sep);
    }
  }

  /** The pieces of a split are the only ones with its three properties: they join to
      the text, each but the last ends at the first separator after it, and the last
      holds none. */
  lemma {:induction false} SplitUnique(s: string, sep: string, ps: seq<string>)
    requires |sep| > 0 && |ps| >= 1 && Join(ps, sep) == s
    requires EndsAtFirst(ps, sep) && !Contains(ps[|ps| - 1], sep)
    ensures Split(s, sep) == ps
    decreases |ps|
  {
    if |ps| > 1 {
      var p := ps[0];
      var tail := ps[1..];
      var rest := Join(tail, sep);
      JoinCons(p, tail, sep);
      assert ps == [p] + tail;
      assert s == p + sep + rest;
      assert IndexOf(p + sep, sep) == Some(|p|);
      FirstBeforeRest(p, sep, rest);
      assert s[..|p|] == p && s[|p| + |sep|..] == rest;
      assert tail[|tail| - 1] == ps[|ps| - 1];
      SplitUnique(rest, sep, tail);
    }
  }

  /** A separator that first occurs right after `p` in `p + sep` still does after more
      text is appended. */
  lemma FirstBeforeRest(p: string, sep: string, rest: string)
    requires IndexOf(p + sep, sep) == Some(|p|)
    ensures IndexOf(p + sep + rest, sep) == Some(|p|)
  {
    OccursInPrefixAll(p + sep, rest, sep);
    OccursExtend(p + sep, rest, sep, |p|);
    FirstOccurrence(p + sep + rest, sep, |p|);
  }

}
