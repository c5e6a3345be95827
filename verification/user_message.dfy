/**
 * The user message `run_analysis` of debugger/ollama_client.py sends: the specification,
 * the waveform and the violation description, each after its marker.
 */
module UserMessage {
  import opened Wrappers
  import opened Text

  /** The markers the prompt announces, in the order the user message uses them. */
  const SpecMarker := "SPECIFICATION:"
  const WaveMarker := "WAVEFORM:"
  const ViolMarker := "VIOLATION:"

  /** The end of the user message. */
  const Trailer := "\nEnd of user input"

  /** The violation description sent when the error log is absent or blank. */
  const Sentinel := "No violation found. Skip analysis"

  /** The text of the violation description: the stripped error log, or the sentinel when
      the log is absent or blank. A log that is not blank gives a slice of itself with only
      white space outside it; `StripUnique` says that slice is the only one with no white
      space at its edges. */
  function Narrative(log: Option<string>): (r: string)
    ensures |r| > 0 && !IsSpace(r[0]) && !IsSpace(r[|r| - 1])
    ensures log.None? ==> r == Sentinel
    ensures log.Some? && AllSpace(log.value) ==> r == Sentinel
    ensures log.Some? && !AllSpace(log.value) ==>
      exists i, j :: 0 <= i <= j <= |log.value| && r == log.value[i..j]
        && AllSpace(log.value[..i]) && AllSpace(log.value[j..])
  {
    SentinelEdges();
    match log
    case None => Sentinel
    case Some(text) =>
      var s := Strip(text);
      if s == [] then Sentinel else s
  }

  /** The sentinel is a text without white space at its edges. */
  lemma SentinelEdges()
    ensures |Sentinel| > 0 && !IsSpace(Sentinel[0]) && !IsSpace(Sentinel[|Sentinel| - 1])
  {
    assert Sentinel[0] == 'N' && Sentinel[|Sentinel| - 1] == 's';
  }

  /** What opens each line of the user message: the marker and a blank, and for the
      second and third line the newline that ends the line before. */
  const SpecOpen := SpecMarker + " "
  const WaveOpen := "\n" + WaveMarker + " "
  const ViolOpen := "\n" + ViolMarker + " "

  /** The user message: specification, waveform and violation description, each after
      the marker the prompt announced for it, on lines of their own, then the closing
      line. */
  function UserContent(specs: string, csv: string, narrative: string): (u: string)
    ensures LaidOut(u, specs, csv, narrative)
  {
    Laid(SpecOpen, specs, WaveOpen, csv, ViolOpen, narrative, Trailer);
    SpecOpen + specs + WaveOpen + csv + ViolOpen + narrative + Trailer
  }

  /** `u` holds, one right after the other and nothing else, the specification's opening
      and the specification, the waveform's opening and the CSV, the violation's opening
      and the description, and the closing line. */
  predicate LaidOut(u: string, specs: string, csv: string, narrative: string) {
    var w := |SpecOpen| + |specs|;
    var v := w + |WaveOpen| + |csv|;
    var t := v + |ViolOpen| + |narrative|;
    && |u| == t + |Trailer|
    && OccursAt(u, SpecOpen, 0) && OccursAt(u, specs, |SpecOpen|)
    && OccursAt(u, WaveOpen, w) && OccursAt(u, csv, w + |WaveOpen|)
    && OccursAt(u, ViolOpen, v) && OccursAt(u, narrative, v + |ViolOpen|)
    && OccursAt(u, Trailer, t)
  }

  /** The layout fixes the message: the user message is the only text laid out so. */
  lemma LaidOutDetermines(u: string, specs: string, csv: string, narrative: string)
    requires LaidOut(u, specs, csv, narrative)
    ensures u == UserContent(specs, csv, narrative)
  {
    Glued(u, SpecOpen, specs, WaveOpen, csv, ViolOpen, narrative, Trailer);
  }

  /** Seven texts joined lie one after the other in the result. */
  lemma Laid(p0: string, p1: string, p2: string, p3: string, p4: string, p5: string, p6: string)
    ensures var u := p0 + p1 + p2 + p3 + p4 + p5 + p6;
      var o1 := |p0|;
      var o2 := o1 + |p1|;
      var o3 := o2 + |p2|;
      var o4 := o3 + |p3|;
      var o5 := o4 + |p4|;
      var o6 := o5 + |p5|;
      && |u| == o6 + |p6|
      && OccursAt(u, p0, 0) && OccursAt(u, p1, o1) && OccursAt(u, p2, o2) && OccursAt(u, p3, o3)
      && OccursAt(u, p4, o4) && OccursAt(u, p5, o5) && OccursAt(u, p6, o6)
  {
    var a1 := p0 + p1;
    var a2 := a1 + p2;
    var a3 := a2 + p3;
    var a4 := a3 + p4;
    var a5 := a4 + p5;
    OccursAtEnd([], p0);
    assert [] + p0 == p0;
    OccursAtEnd(p0, p1);
    OccursExtendAll(p0, p1, p0);
    OccursAtEnd(a1, p2);
    OccursExtendAll(a1, p2, p0);
    OccursExtendAll(a1, p2, p1);
    OccursAtEnd(a2, p3);
    OccursExtendAll(a2, p3, p0);
    OccursExtendAll(a2, p3, p1);
    OccursExtendAll(a2, p3, p2);
    OccursAtEnd(a3, p4);
    OccursExtendAll(a3, p4, p0);
    OccursExtendAll(a3, p4, p1);
    OccursExtendAll(a3, p4, p2);
    OccursExtendAll(a3, p4, p3);
    OccursAtEnd(a4, p5);
    OccursExtendAll(a4, p5, p0);
    OccursExtendAll(a4, p5, p1);
    OccursExtendAll(a4, p5, p2);
    OccursExtendAll(a4, p5, p3);
    OccursExtendAll(a4, p5, p4);
    OccursAtEnd(a5, p6);
    OccursExtendAll(a5, p6, p0);
    OccursExtendAll(a5, p6, p1);
    OccursExtendAll(a5, p6, p2);
    OccursExtendAll(a5, p6, p3);
    OccursExtendAll(a5, p6, p4);
    OccursExtendAll(a5, p6, p5);
  }

  /** A text holding seven texts one right after the other, and nothing else, is their
      join. */
  lemma Glued(u: string, p0: string, p1: string, p2: string, p3: string, p4: string, p5: string, p6: string)
    requires var o1 := |p0|;
      var o2 := o1 + |p1|;
      var o3 := o2 + |p2|;
      var o4 := o3 + |p3|;
      var o5 := o4 + |p4|;
      var o6 := o5 + |p5|;
      && |u| == o6 + |p6|
      && OccursAt(u, p0, 0) && OccursAt(u, p1, o1) && OccursAt(u, p2, o2) && OccursAt(u, p3, o3)
      && OccursAt(u, p4, o4) && OccursAt(u, p5, o5) && OccursAt(u, p6, o6)
    ensures u == p0 + p1 + p2 + p3 + p4 + p5 + p6
  {
    assert u[..0] == [];
    Grow(u, [], p0);
    Grow(u, p0, p1);
    Grow(u, p0 + p1, p2);
    Grow(u, p0 + p1 + p2, p3);
    Grow(u, p0 + p1 + p2 + p3, p4);
    Grow(u, p0 + p1 + p2 + p3 + p4, p5);
    Grow(u, p0 + p1 + p2 + p3 + p4 + p5, p6);
    assert u[..|u|] == u;
  }

  /** A prefix of `u` followed by what occurs right after it is a longer prefix. */
  lemma Grow(u: string, p: string, x: string)
    requires |p| <= |u| && u[..|p|] == p && OccursAt(u, x, |p|)
    ensures u[..|p| + |x|] == p + x
  {
    assert u[..|p| + |x|] == u[..|p|] + u[|p|..|p| + |x|];
  }

  /** The waveform follows the specification's line, after its marker, on a line of its
      own. */
  lemma WaveSection(specs: string, csv: string, narrative: string)
    ensures var u := UserContent(specs, csv, narrative);
      var w := |SpecMarker| + 1 + |specs| + 1;
      && u[w - 1] == '\n'
      && OccursAt(u, WaveMarker + " ", w) && OccursAt(u, csv, w + |WaveMarker| + 1)
  {
    var u := UserContent(specs, csv, narrative);
    var w := |SpecMarker| + 1 + |specs| + 1;
    OpenParts(WaveMarker);
    OccursWithin(u, WaveOpen, WaveMarker + " ", w - 1, 1);
    assert u[w - 1] == u[w - 1..w - 1 + |WaveOpen|][0];
  }

  /** The violation description follows the waveform's line, after its marker, on a line
      of its own, and the closing line ends the message. */
  lemma ViolSection(specs: string, csv: string, narrative: string)
    ensures var u := UserContent(specs, csv, narrative);
      var v := |SpecMarker| + 1 + |specs| + 1 + |WaveMarker| + 1 + |csv| + 1;
      && u[v - 1] == '\n'
      && OccursAt(u, ViolMarker + " ", v) && OccursAt(u, narrative, v + |ViolMarker| + 1)
      && |u| == v + |ViolMarker| + 1 + |narrative| + |Trailer|
      && OccursAt(u, Trailer, |u| - |Trailer|)
  {
    var u := UserContent(specs, csv, narrative);
    var v := |SpecMarker| + 1 + |specs| + 1 + |WaveMarker| + 1 + |csv| + 1;
    OpenParts(ViolMarker);
    OccursWithin(u, ViolOpen, ViolMarker + " ", v - 1, 1);
    assert u[v - 1] == u[v - 1..v - 1 + |ViolOpen|][0];
  }

  /** A line's opening is the newline, then the marker and its blank. */
  lemma OpenParts(marker: string)
    ensures OccursAt("\n" + marker + " ", marker + " ", 1) && ("\n" + marker + " ")[0] == '\n'
  {
    assert ("\n" + marker + " ")[1..1 + |marker| + 1] == marker + " ";
  }
}
