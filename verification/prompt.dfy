/**
 * The system prompt `create_system_prompt` of debugger/ollama_client.py builds, and the
 * markers it announces for the user message.
 */
module Prompt {
  import opened Text
  import opened UserMessage

  /** A marker as the prompt quotes it. */
  function Quoted(marker: string): string {
    "\"" + marker + "\""
  }

  /** The lines of the system prompt, character for character (indentation and trailing
      blanks included). */
  const Indent := "                      "
  const PromptLines := [
    "You are an expert in RTL waveform analysis and will be given three inputs from the user.",
    Indent + "Waveform data in csv format marked by " + Quoted(WaveMarker) + " identifier.",
    Indent + "Design specifications in text format marked by " + Quoted(SpecMarker) + " identifier.",
    Indent + "Violation description in text format marked by " + Quoted(ViolMarker) + " identifier. ",
    "                      Important notes about csv waveform data:",
    "                        1. The first row indicates the signal names. The first column is simulation timing(unit is picoseconds unless otherwise specified). A row is added whenever a signal toggles. ",
    "                        2. A toggle is strictly defined as a signal transition from 0->1 or 1->0. Do not infer toggles from outside the CSV data. ",
    "                        3. If a clock signal is present, pay close attention to signal toggling in relation to clock values.",
    "                        4. Values will likely be converted to hex format for ease of interpretation. Additionally, do not assume this is the complete waveform.",
    "                      Your task is the following:",
    "                      1. Interpret the data given design specifications and violation descriptions.",
    "                      2. Suggest 3 possible reasons for the violations in order of highest to lowest confidence.",
    "                      3. Return findings in a concise bulleted list format."
  ]

  /** The system prompt `create_system_prompt` returns. */
  const SystemPrompt := Join(PromptLines, "\n")

  /** Each part of a join occurs in it. */
  lemma {:induction false} JoinHasPart(parts: seq<string>, sep: string, k: nat)
    requires k < |parts|
    ensures exists o: nat :: OccursAt(Join(parts, sep), parts[k], o)
    decreases k
  {
    var j := Join(parts, sep);
    if |parts| == 1 {
      assert OccursAt(j, parts[k], 0);
    } else if k == 0 {
      assert j[..|parts[0]|] == parts[0];
      assert OccursAt(j, parts[k], 0);
    } else {
      var rest := Join(parts[1..], sep);
      JoinHasPart(parts[1..], sep, k - 1);
      var o: nat :| OccursAt(rest, parts[1..][k - 1], o);
      var off := |parts[0]| + |sep|;
      assert j == (parts[0] + sep) + rest;
      assert j[off..] == rest;
      assert OccursAt(j, rest, off);
      OccursWithin(j, rest, parts[k], off, o);
    }
  }

  /** The system prompt announces each marker of the user message, quoted. */
  lemma PromptNamesMarkers()
    ensures Contains(SystemPrompt, Quoted(WaveMarker))
    ensures Contains(SystemPrompt, Quoted(SpecMarker))
    ensures Contains(SystemPrompt, Quoted(ViolMarker))
  {
    OccursAtEnd(Indent + "Waveform data in csv format marked by ", Quoted(WaveMarker));
    OccursExtend(Indent + "Waveform data in csv format marked by " + Quoted(WaveMarker), " identifier.", Quoted(WaveMarker), 60);
    OccursAtEnd(Indent + "Design specifications in text format marked by ", Quoted(SpecMarker));
    OccursExtend(Indent + "Design specifications in text format marked by " + Quoted(SpecMarker), " identifier.", Quoted(SpecMarker), 69);
    OccursAtEnd(Indent + "Violation description in text format marked by ", Quoted(ViolMarker));
    OccursExtend(Indent + "Violation description in text format marked by " + Quoted(ViolMarker), " identifier. ", Quoted(ViolMarker), 69);
    JoinHasPart(PromptLines, "\n", 1);
    var o1: nat :| OccursAt(SystemPrompt, PromptLines[1], o1);
    OccursWithin(SystemPrompt, PromptLines[1], Quoted(WaveMarker), o1, 60);
    JoinHasPart(PromptLines, "\n", 2);
    var o2: nat :| OccursAt(SystemPrompt, PromptLines[2], o2);
    OccursWithin(SystemPrompt, PromptLines[2], Quoted(SpecMarker), o2, 69);
    JoinHasPart(PromptLines, "\n", 3);
    var o3: nat :| OccursAt(SystemPrompt, PromptLines[3], o3);
    OccursWithin(SystemPrompt, PromptLines[3], Quoted(ViolMarker), o3, 69);
  }
}
