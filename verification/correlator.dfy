/**
 * The violation-log correlator of `extract_vcd_data` (debugger/vcd_formatter.py): it
 * scans the test's error log for lines reporting a violation and reads back the
 * simulation time each one names, in picoseconds.
 *
 * The testbench writes such lines as `VIOLATION at <t> ps: <message>`, behind the
 * logger's own prefix. The time is read the way Python's `float()` reads the text
 * between the first `VIOLATION at ` and the next ` ps`, so a time is a `real`: the
 * row lookup later matches it against the integer row times by value, as Python's
 * float/int key equality does.
 */
module Correlator {
  import opened Wrappers
  import opened Text
  import opened Numerals
  import opened Sorting

  /** The substring that marks a line as a violation report. */
  const Marker := "VIOLATION at"
  /** The separator the time is split off after. */
  const MarkerPrefix := "VIOLATION at "
  /** The unit suffix that ends the time. */
  const UnitSuffix := " ps"

  /** `10^k`, the scale of a fraction of `k` digits. */
  function Pow10(k: nat): (p: nat)
    ensures p >= 1
  {
    if k == 0 then 1 else 10 * Pow10(k - 1)
  }

  /** An unsigned decimal as `float()` accepts it without an exponent: digits, or
      digits `.` digits with at least one side non-empty. */
  function ParseUnsigned(s: string): (r: Option<real>)
    ensures |s| == 0 ==> r.None?
    ensures r.Some? ==> r.value >= 0.0
  {
    match IndexOf(s, ".")
    case None =>
      if IsNumeral(s, 10) then Some(ValueOf(s, 10) as real) else None
    case Some(i) =>
      var whole := s[..i];
      var frac := s[i + 1..];
      if (|whole| > 0 || |frac| > 0) && AllDigits(whole, 10) && AllDigits(frac, 10)
      then Some(ValueOf(whole, 10) as real + (ValueOf(frac, 10) as real) / (Pow10(|frac|) as real))
      else None
  }

  /** Python's `float(tok)` on a decimal without exponent: surrounding white space is
      ignored and an optional sign is allowed. `None` where `float()` raises. */
  function ParseFloat(tok: string): (r: Option<real>)
    ensures AllSpace(tok) ==> r.None?
    ensures r.Some? ==> |Strip(tok)| > 0
    ensures r.Some? && Strip(tok)[0] == '-' ==> r.value <= 0.0
    ensures r.Some? && Strip(tok)[0] != '-' ==> r.value >= 0.0
  {
    ParseSigned(Strip(tok))
  }

  /** A stripped token: an optional sign, then an unsigned decimal, negated after `-`. */
  function ParseSigned(t: string): (r: Option<real>)
    ensures |t| == 0 ==> r.None?
    ensures r.Some? && t[0] == '-' ==> r.value <= 0.0
    ensures r.Some? && t[0] != '-' ==> r.value >= 0.0
  {
    if |t| > 0 && t[0] == '-' then
      match ParseUnsigned(t[1..])
      case Some(v) => Some(-v)
      case None => None
    else if |t| > 0 && t[0] == '+' then ParseUnsigned(t[1..])
    else ParseUnsigned(t)
  }

  /** The value of the decimal `a.b`: the digits of `a` and `b` read as one integer,
      scaled down by one power of ten per fraction digit. */
  function DecimalValue(a: string, b: string): (v: real)
    requires AllDigits(a, 10) && AllDigits(b, 10)
    ensures v >= 0.0
  {
    ValueOfConcat(a, b);
    (ValueOf(a + b, 10) as real) / (Pow10(|b|) as real)
  }

  /** Digits after digits: the value of the whole is the first part shifted left by the
      second part's length, plus the second part. */
  lemma {:induction false} ValueOfConcat(a: string, b: string)
    requires AllDigits(a, 10) && AllDigits(b, 10)
    ensures AllDigits(a + b, 10)
    ensures ValueOf(a + b, 10) == ValueOf(a, 10) * Pow10(|b|) + ValueOf(b, 10)
    decreases |b|
  {
    if |b| == 0 {
      assert a + b == a;
    } else {
      var init := b[..|b| - 1];
      ValueOfConcat(a, init);
      assert b == init + [b[|b| - 1]];
      ConcatStep(a, init, b[|b| - 1]);
    }
  }

  /** One more digit after digits: the shifted sum grows by one place. */
  lemma ConcatStep(a: string, init: string, c: char)
    requires AllDigits(a, 10) && AllDigits(init, 10) && DigitValue(c) < 10
    requires AllDigits(a + init, 10)
    requires ValueOf(a + init, 10) == ValueOf(a, 10) * Pow10(|init|) + ValueOf(init, 10)
    ensures AllDigits(a + (init + [c]), 10)
    ensures ValueOf(a + (init + [c]), 10) == ValueOf(a, 10) * Pow10(|init| + 1) + ValueOf(init + [c], 10)
  {
    assert a + (init + [c]) == (a + init) + [c];
    ValueOfSnoc(a + init, c, 10);
    ValueOfSnoc(init, c, 10);
    ShiftStep(ValueOf(a, 10), Pow10(|init|), ValueOf(init, 10), DigitValue(c));
  }

  /** Appending a digit to a shifted sum. */
  lemma ShiftStep(v: nat, p: nat, w: nat, d: nat)
    ensures (v * p + w) * 10 + d == v * (10 * p) + (w * 10 + d)
  {
  }

  /** Scaling a shifted sum back down. */
  lemma ShiftBack(m: nat, p: nat, n: nat)
    requires p > 0
    ensures ((m * p + n) as real) / (p as real) == (m as real) + (n as real) / (p as real)
  {
    assert ((m * p + n) as real) == (m as real) * (p as real) + (n as real);
  }

  /** An unsigned decimal `a.b` is read as its decimal value. */
  lemma ParseUnsignedPoint(a: string, b: string)
    requires AllDigits(a, 10) && AllDigits(b, 10) && |a| + |b| > 0
    ensures ParseUnsigned(a + "." + b) == Some(DecimalValue(a, b))
  {
    var u := a + "." + b;
    PointAfterNumeral(a, b);
    assert u[..|a|] == a && u[|a| + 1..] == b;
    ValueOfConcat(a, b);
    ShiftBack(ValueOf(a, 10), Pow10(|b|), ValueOf(b, 10));
  }

  /** `float()` of a decimal with a point, after an optional sign: the decimal value,
      negated after `-`. */
  lemma ParseFloatDecimal(tok: string, sign: string, a: string, b: string)
    requires sign == "" || sign == "-" || sign == "+"
    requires AllDigits(a, 10) && AllDigits(b, 10) && |a| + |b| > 0
    requires Strip(tok) == sign + a + "." + b
    ensures ParseFloat(tok) == Some(if sign == "-" then -DecimalValue(a, b) else DecimalValue(a, b))
  {
    SignedDecimal(sign, a, b);
  }

  /** The stripped form of `ParseFloatDecimal`. */
  lemma SignedDecimal(sign: string, a: string, b: string)
    requires sign == "" || sign == "-" || sign == "+"
    requires AllDigits(a, 10) && AllDigits(b, 10) && |a| + |b| > 0
    ensures ParseSigned(sign + a + "." + b) == Some(if sign == "-" then -DecimalValue(a, b) else DecimalValue(a, b))
  {
    var u := a + "." + b;
    assert sign + a + "." + b == sign + u;
    ParseUnsignedPoint(a, b);
    UnsignedLead(a, "." + b);
    assert a + "." + b == a + ("." + b);
    SignedParse(sign, u);
  }

  /** `float()` of a decimal integer after an optional sign: its value, negated after
      `-`. Leading zeros are allowed, as `float("0155")` is `155.0`. */
  lemma ParseFloatInteger(tok: string, sign: string, a: string)
    requires sign == "" || sign == "-" || sign == "+"
    requires IsNumeral(a, 10)
    requires Strip(tok) == sign + a
    ensures ParseFloat(tok) == Some(if sign == "-" then -(ValueOf(a, 10) as real) else ValueOf(a, 10) as real)
  {
    SignedInteger(sign, a);
  }

  /** The stripped form of `ParseFloatInteger`. */
  lemma SignedInteger(sign: string, a: string)
    requires sign == "" || sign == "-" || sign == "+"
    requires IsNumeral(a, 10)
    ensures ParseSigned(sign + a) == Some(if sign == "-" then -(ValueOf(a, 10) as real) else ValueOf(a, 10) as real)
  {
    DigitsNotSpace(a);
    IndexOfAbsentChar(a, ".");
    ParseUnsignedWhole(a);
    UnsignedLead(a, []);
    assert a + [] == a;
    SignedParse(sign, a);
  }

  /** A text that starts with digits or a point starts with neither sign. */
  lemma UnsignedLead(a: string, rest: string)
    requires AllDigits(a, 10) && |a + rest| > 0
    requires |a| == 0 ==> rest[0] == '.'
    ensures (a + rest)[0] != '-' && (a + rest)[0] != '+'
  {
    if |a| > 0 {
      DigitsNotSpace(a);
      assert (a + rest)[0] == a[0];
    } else {
      assert a + rest == rest;
    }
  }

  /** After an optional sign, the unsigned rest is read, and negated after `-`. */
  lemma SignedParse(sign: string, u: string)
    requires sign == "" || sign == "-" || sign == "+"
    requires |u| > 0 && u[0] != '-' && u[0] != '+'
    ensures ParseSigned(sign + u) == match ParseUnsigned(u)
      case Some(v) => Some(if sign == "-" then -v else v)
      case None => None
  {
    var t := sign + u;
    if sign != "" {
      assert t[0] == sign[0] && t[1..] == u;
    } else {
      assert t == u;
    }
  }

  /** Conversely, every token `float()` accepts is, once stripped, a decimal integer or a
      decimal with a point, after an optional sign; the two lemmas above then give its
      value. */
  lemma ParseFloatForms(tok: string)
    ensures ParseFloat(tok).Some? ==> exists sign, a, b ::
      && (sign == "" || sign == "-" || sign == "+")
      && AllDigits(a, 10) && AllDigits(b, 10) && |a| + |b| > 0
      && (Strip(tok) == sign + a + "." + b || (|b| == 0 && Strip(tok) == sign + a))
  {
    if ParseFloat(tok).Some? {
      var sign, a, b := SignedForm(Strip(tok));
    }
  }

  /** The sign and digit parts of a text `ParseSigned` accepts. */
  lemma SignedForm(t: string) returns (sign: string, a: string, b: string)
    requires ParseSigned(t).Some?
    ensures sign == "" || sign == "-" || sign == "+"
    ensures AllDigits(a, 10) && AllDigits(b, 10) && |a| + |b| > 0
    ensures t == sign + a + "." + b || (|b| == 0 && t == sign + a)
  {
    var u: string;
    if t[0] == '-' || t[0] == '+' {
      sign, u := [t[0]], t[1..];
      assert t == sign + u;
    } else {
      sign, u := "", t;
      assert t == sign + u;
    }
    a, b := UnsignedForm(u);
    if u == a + "." + b {
      SignedJoin(sign, a, b);
    }
  }

  /** A sign before a decimal with a point. */
  lemma SignedJoin(sign: string, a: string, b: string)
    ensures sign + (a + "." + b) == sign + a + "." + b
  {
  }

  /** The digit parts of a text `ParseUnsigned` accepts: digits, or digits around the
      first point. */
  lemma UnsignedForm(u: string) returns (a: string, b: string)
    requires ParseUnsigned(u).Some?
    ensures AllDigits(a, 10) && AllDigits(b, 10) && |a| + |b| > 0
    ensures u == a + "." + b || (|b| == 0 && u == a)
  {
    match IndexOf(u, ".")
    case None =>
      a, b := u, "";
    case Some(i) =>
      a, b := u[..i], u[i + 1..];
      AroundOccurrence(u, ".", i);
  }

  /** The time one log line reports, or `None` when the line is no violation report or
      its time does not parse (the `except: continue` path). */
  function ParseLine(line: string): (r: Option<real>)
    ensures !Contains(line, Marker) ==> r.None?
    ensures r.Some? ==> Contains(line, MarkerPrefix)
  {
    if !Contains(line, Marker) then None
    else
      var parts := Split(line, MarkerPrefix);
      if |parts| < 2 then None
      else ParseFloat(Split(parts[1], UnitSuffix)[0])
  }

  /** The values of the present entries of `xs`, in order. */
  function Present<T>(xs: seq<Option<T>>): seq<T> {
    if |xs| == 0 then []
    else
      var earlier := Present(xs[..|xs| - 1]);
      match xs[|xs| - 1]
      case Some(t) => earlier + [t]
      case None => earlier
  }

  /** An entry that holds a value. */
  predicate IsPresent<T>(o: Option<T>) {
    o.Some?
  }

  /** The positions of the present entries of `xs`, ascending. */
  function PresentPositions<T>(xs: seq<Option<T>>): seq<nat> {
    Positions(xs, IsPresent)
  }

  /** `Present` keeps exactly the present entries, in order: its k-th value is the
      value at the k-th present position. */
  lemma {:induction false} PresentMatchesPositions<T>(xs: seq<Option<T>>)
    ensures |Present(xs)| == |PresentPositions(xs)|
    ensures forall k :: 0 <= k < |Present(xs)| ==>
      Present(xs)[k] == xs[PresentPositions(xs)[k]].value
    decreases |xs|
  {
    if |xs| > 0 {
      var n := |xs| - 1;
      PresentMatchesPositions(xs[..n]);
      var p := PresentPositions(xs[..n]);
      forall k | 0 <= k < |p|
        ensures xs[p[k]] == xs[..n][p[k]]
      {
      }
    }
  }

  /** `Present` of a concatenation is the concatenation of the `Present`s. */
  lemma {:induction false} PresentAppend<T>(a: seq<Option<T>>, b: seq<Option<T>>)
    ensures Present(a + b) == Present(a) + Present(b)
    decreases |b|
  {
    if |b| == 0 {
      assert a + b == a;
    } else {
      var n := |b| - 1;
      PresentAppend(a, b[..n]);
      assert (a + b)[..|a + b| - 1] == a + b[..n];
      assert (a + b)[|a + b| - 1] == b[n];
    }
  }

  /** `f` applied to each element of `xs`. */
  function MapSeq<A, B>(xs: seq<A>, f: A -> B): (r: seq<B>)
    ensures |r| == |xs|
    ensures forall i :: 0 <= i < |xs| ==> r[i] == f(xs[i])
  {
    seq(|xs|, i requires 0 <= i < |xs| => f(xs[i]))
  }

  /** Mapping distributes over concatenation. */
  lemma MapSeqAppend<A, B>(a: seq<A>, b: seq<A>, f: A -> B)
    ensures MapSeq(a + b, f) == MapSeq(a, f) + MapSeq(b, f)
  {
    var l := MapSeq(a + b, f);
    var r := MapSeq(a, f) + MapSeq(b, f);
    forall i | 0 <= i < |l|
      ensures l[i] == r[i]
    {
      if i < |a| { assert (a + b)[i] == a[i]; } else { assert (a + b)[i] == b[i - |a|]; }
    }
  }

  /** Each line's reported time, if any (the loop body of the scan). */
  function Parsed(lines: seq<string>): (r: seq<Option<real>>)
    ensures |r| == |lines|
  {
    MapSeq(lines, ParseLine)
  }

  /** The reported times of `lines`, in line order, one per line that parses. */
  function Collect(lines: seq<string>): seq<real> {
    Present(Parsed(lines))
  }

  /** The violation times of the log. A missing log (no file, or no path given) reports none. */
  function ViolationTimes(log: Option<string>): (r: seq<real>)
    ensures log.None? ==> r == []
  {
    match log
    case None => []
    case Some(content) => Collect(Split(content, "\n"))
  }

  /** The correlator reports exactly one time per parsable violation line, in file order,
      duplicates included: there is an ascending list of exactly the lines that parse, and
      the k-th time reported is the one the k-th of those lines names. */
  lemma CollectSpec(lines: seq<string>)
    ensures var p := PresentPositions(Parsed(lines));
      && StrictlyAscending(p)
      && (forall i :: 0 <= i < |lines| ==> (ParseLine(lines[i]).Some? <==> i in p))
      && |Collect(lines)| == |p|
      && (forall k :: 0 <= k < |p| ==> p[k] < |lines| && Some(Collect(lines)[k]) == ParseLine(lines[p[k]]))
  {
    var xs := Parsed(lines);
    PresentMatchesPositions(xs);
  }

  /** Reading a log made of two parts gives the times of the first part, then those of
      the second. */
  lemma CollectAppend(a: seq<string>, b: seq<string>)
    ensures Collect(a + b) == Collect(a) + Collect(b)
  {
    MapSeqAppend(a, b, ParseLine);
    PresentAppend(Parsed(a), Parsed(b));
  }

  /** The line the testbench logs for a violation at time text `stamp`
      (`VIOLATION at {ts} ps: {msg}`), behind the logger's `prefix`. */
  function ReportLine(prefix: string, stamp: string, msg: string): string {
    prefix + MarkerPrefix + stamp + " ps: " + msg
  }

  /** A line whose text before the report has no `V`, and whose time text has neither
      `V` nor a space, is read as that time text. */
  lemma StampOfLine(prefix: string, stamp: string, msg: string)
    requires forall k :: 0 <= k < |prefix| ==> prefix[k] != 'V'
    requires forall k :: 0 <= k < |stamp| ==> stamp[k] != 'V' && stamp[k] != ' '
    ensures ParseLine(ReportLine(prefix, stamp, msg)) == ParseFloat(stamp)
  {
    var rest := stamp + " ps: " + msg;
    var line := ReportLine(prefix, stamp, msg);
    MarkerFound(prefix, rest);
    assert line == prefix + MarkerPrefix + rest;
    SecondPiece(line, MarkerPrefix, |prefix|);
    StampOfRest(stamp, msg);
    ParseLineVia(line, rest, stamp);
  }

  /** The time text is what the two splits of `ParseLine` leave of the text after the
      marker. */
  lemma StampOfRest(stamp: string, msg: string)
    requires forall k :: 0 <= k < |stamp| ==> stamp[k] != 'V' && stamp[k] != ' '
    ensures Split(Split(stamp + " ps: " + msg, MarkerPrefix)[0], UnitSuffix)[0] == stamp
  {
    var rest := stamp + " ps: " + msg;
    var seg := Split(rest, MarkerPrefix)[0];
    var m := |stamp| + |UnitSuffix|;
    forall q | 0 <= q < m && q < |rest|
      ensures rest[q] != MarkerPrefix[0]
    {
      if q < |stamp| { assert rest[q] == stamp[q]; }
    }
    FirstPieceKeeps(rest, MarkerPrefix, m);
    assert rest[..m] == stamp + UnitSuffix;
    StampBeforeUnit(seg, stamp);
  }

  /** `ParseLine` reads the time text once the marker is found and the splits are
      known. */
  lemma ParseLineVia(line: string, rest: string, stamp: string)
    requires Contains(line, Marker)
    requires |Split(line, MarkerPrefix)| >= 2
    requires Split(line, MarkerPrefix)[1] == Split(rest, MarkerPrefix)[0]
    requires Split(Split(rest, MarkerPrefix)[0], UnitSuffix)[0] == stamp
    ensures ParseLine(line) == ParseFloat(stamp)
  {
  }

  /** The report marker is found right after a prefix without `V`, and the text after it
      is what follows the marker. */
  lemma MarkerFound(prefix: string, rest: string)
    requires forall k :: 0 <= k < |prefix| ==> prefix[k] != 'V'
    ensures var line := prefix + MarkerPrefix + rest;
      && Contains(line, Marker)
      && IndexOf(line, MarkerPrefix) == Some(|prefix|)
      && line[|prefix| + |MarkerPrefix|..] == rest
  {
    var line := prefix + MarkerPrefix + rest;
    assert line[|prefix|..|prefix| + |MarkerPrefix|] == MarkerPrefix;
    assert line[|prefix|..|prefix| + |Marker|] == Marker;
    assert OccursAt(line, Marker, |prefix|);
    IndexOfAt(line, MarkerPrefix, |prefix|);
    assert line[|prefix| + |MarkerPrefix|..] == rest;
  }

  /** The second piece of a split is the first piece of the text after the first
      separator. */
  lemma SecondPiece(s: string, sep: string, i: nat)
    requires |sep| > 0 && IndexOf(s, sep) == Some(i)
    ensures |Split(s, sep)| >= 2 && Split(s, sep)[1] == Split(s[i + |sep|..], sep)[0]
  {
  }

  /** When no separator can start before `m`, the first piece keeps the first `m`
      characters. */
  lemma FirstPieceKeeps(s: string, sep: string, m: nat)
    requires |sep| > 0 && m <= |s|
    requires forall q :: 0 <= q < m && q < |s| ==> s[q] != sep[0]
    ensures |Split(s, sep)[0]| >= m && Split(s, sep)[0][..m] == s[..m]
  {
    IndexOfNotBefore(s, sep, m);
  }

  /** A time text without blanks, followed by the unit, is the first piece of the split
      on the unit. */
  lemma StampBeforeUnit(seg: string, stamp: string)
    requires forall k :: 0 <= k < |stamp| ==> stamp[k] != ' '
    requires |seg| >= |stamp| + |UnitSuffix| && seg[..|stamp| + |UnitSuffix|] == stamp + UnitSuffix
    ensures Split(seg, UnitSuffix)[0] == stamp
  {
    var m := |stamp| + |UnitSuffix|;
    assert seg[|stamp|..m] == seg[..m][|stamp|..];
    assert OccursAt(seg, UnitSuffix, |stamp|);
    forall q | 0 <= q < |stamp|
      ensures seg[q] != UnitSuffix[0]
    {
      assert seg[q] == seg[..m][q];
    }
    IndexOfAt(seg, UnitSuffix, |stamp|);
    assert seg[..|stamp|] == seg[..m][..|stamp|];
  }

  /** Decimal digits are no white space. */
  lemma DigitsNotSpace(s: string)
    requires AllDigits(s, 10)
    ensures forall k :: 0 <= k < |s| ==> !IsSpace(s[k]) && s[k] != 'V' && s[k] != ' ' && s[k] != '.'
    ensures forall k :: 0 <= k < |s| ==> s[k] != '-' && s[k] != '+'
  {
    forall k | 0 <= k < |s|
      ensures !IsSpace(s[k]) && s[k] != 'V' && s[k] != ' ' && s[k] != '.' && s[k] != '-' && s[k] != '+'
    {
      assert DigitValue(s[k]) < 10;
    }
  }

  /** Text without white space or sign is read as an unsigned decimal. */
  lemma ParseFloatPlain(s: string)
    requires forall k :: 0 <= k < |s| ==> !IsSpace(s[k])
    requires |s| > 0 && s[0] != '-' && s[0] != '+'
    ensures ParseFloat(s) == ParseUnsigned(s)
  {
  }

  /** A numeral without a point is read as its integer value. */
  lemma ParseUnsignedWhole(s: string)
    requires IsNumeral(s, 10) && IndexOf(s, ".").None?
    ensures ParseUnsigned(s) == Some(ValueOf(s, 10) as real)
  {
  }

  /** A decimal numeral contains no `V`, no space and no point, and parses as its value. */
  lemma ParseNumeral(ts: nat)
    ensures var s := Numeral(ts, 10);
      && (forall k :: 0 <= k < |s| ==> s[k] != 'V' && s[k] != ' ' && !IsSpace(s[k]) && s[k] != '.')
      && ParseFloat(s) == Some(ts as real)
  {
    var s := Numeral(ts, 10);
    DigitsNotSpace(s);
    IndexOfAbsentChar(s, ".");
    NumeralRoundTrip(ts, 10);
    ParseFloatPlain(s);
    ParseUnsignedWhole(s);
  }

  /** The round trip with the testbench: a line it logs as `VIOLATION at {ts} ps: {msg}`
      for an integer simulation time `ts`, behind any logger prefix without a `V`, is read
      back as exactly `ts`. */
  lemma TestbenchLineRoundTrip(prefix: string, ts: nat, msg: string)
    requires forall k :: 0 <= k < |prefix| ==> prefix[k] != 'V'
    ensures ParseLine(ReportLine(prefix, Numeral(ts, 10), msg)) == Some(ts as real)
  {
    ParseNumeral(ts);
    StampOfLine(prefix, Numeral(ts, 10), msg);
  }

  /** The point after a numeral is the first point. */
  lemma PointAfterNumeral(s: string, tail: string)
    requires AllDigits(s, 10)
    ensures IndexOf(s + "." + tail, ".") == Some(|s|)
  {
    var t := s + "." + tail;
    DigitsNotSpace(s);
    assert OccursAt(t, ".", |s|) by { assert t[|s|..|s| + 1] == "."; }
    forall q | 0 <= q < |s|
      ensures t[q] != "."[0]
    {
      assert t[q] == s[q];
    }
    IndexOfAt(t, ".", |s|);
  }

  /** The blank after a numeral is the first blank, and the numeral is what precedes
      it. */
  lemma NumeralThenBlank(s: string, tail: string)
    requires IsNumeral(s, 10)
    ensures IndexOf(s + " " + tail, " ") == Some(|s|) && (s + " " + tail)[..|s|] == s
  {
    var t := s + " " + tail;
    DigitsNotSpace(s);
    assert OccursAt(t, " ", |s|) by { assert t[|s|..|s| + 1] == " "; }
    forall q | 0 <= q < |s|
      ensures t[q] != " "[0]
    {
      assert t[q] == s[q];
    }
    IndexOfAt(t, " ", |s|);
    assert t[..|s|] == s;
  }

  /** A numeral followed by `.0` is read as the numeral's integer value. */
  lemma ParseUnsignedPointZero(s: string)
    requires IsNumeral(s, 10)
    ensures ParseUnsigned(s + ".0") == Some(ValueOf(s, 10) as real)
  {
    var stamp := s + ".0";
    PointAfterNumeral(s, "0");
    assert s + "." + "0" == stamp;
    PointZeroSplit(s);
    ParseUnsignedZeroFraction(stamp, s);
  }

  /** A stamp whose first point separates a numeral from the fraction `0`. */
  lemma ParseUnsignedZeroFraction(stamp: string, s: string)
    requires IsNumeral(s, 10)
    requires IndexOf(stamp, ".") == Some(|s|)
    requires stamp[..|s|] == s && stamp[|s| + 1..] == "0"
    ensures ParseUnsigned(stamp) == Some(ValueOf(s, 10) as real)
  {
    ZeroFraction();
  }

  /** The halves of `s + ".0"` around its point. */
  lemma PointZeroSplit(s: string)
    ensures (s + ".0")[..|s|] == s && (s + ".0")[|s| + 1..] == "0"
  {
  }

  /** The fraction `0` is a digit string worth nothing. */
  lemma ZeroFraction()
    ensures AllDigits("0", 10) && ValueOf("0", 10) == 0 && Pow10(|"0"|) == 10
  {
    assert "0"[..0] == "";
  }

  /** A numeral followed by `.0` has no white space, `V`, space or sign. */
  lemma PointZeroChars(s: string)
    requires IsNumeral(s, 10)
    ensures var stamp := s + ".0";
      && (forall k :: 0 <= k < |stamp| ==> !IsSpace(stamp[k]) && stamp[k] != 'V' && stamp[k] != ' ')
      && stamp[0] != '-' && stamp[0] != '+'
  {
    var stamp := s + ".0";
    DigitsNotSpace(s);
    forall k | 0 <= k < |stamp|
      ensures !IsSpace(stamp[k]) && stamp[k] != 'V' && stamp[k] != ' '
    {
      if k < |s| { assert stamp[k] == s[k]; }
    }
    assert stamp[0] == s[0];
  }

  /** The same round trip when the time was a float that Python printed as `<ts>.0`. */
  lemma FloatLineRoundTrip(prefix: string, ts: nat, msg: string)
    requires forall k :: 0 <= k < |prefix| ==> prefix[k] != 'V'
    ensures ParseLine(ReportLine(prefix, Numeral(ts, 10) + ".0", msg)) == Some(ts as real)
  {
    var s := Numeral(ts, 10);
    var stamp := s + ".0";
    PointZeroChars(s);
    ParseFloatPlain(stamp);
    ParseUnsignedPointZero(s);
    NumeralRoundTrip(ts, 10);
    StampOfLine(prefix, stamp, msg);
  }
}
