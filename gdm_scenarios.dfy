/**
 * What the Wayland step does to a GDM file whose [daemon] header opens the
 * file and whose section holds no other header. A missing WaylandEnable is
 * added as the section's last line, and a second run then leaves the file
 * alone. A WaylandEnable line directly under the header, though, is glued
 * to the header line (the key pattern's leading `\s*` takes the header's
 * newline), after which the header no longer matches and the next run
 * appends a second [daemon] block: re-running does not settle. A line
 * written `WaylandEnable = true` is replaced whole.
 */
module GdmScenarios {
  import opened TextScan
  import opened SectionPatch
  import opened PatchProperties
  import opened LooseKeyPattern
  import opened GdmSetup

  /** The [daemon] header line and the line the Wayland step writes. */
  const Daemon: string := "[daemon]"
  const WaylandLine: string := "WaylandEnable=false"

  /** One line of text that is not indented, holds no `[` and no `W`. */
  predicate PlainLine(line: string)
  {
    |line| > 0 && !IsSpace(line[0]) && '\n' !in line && '[' !in line && 'W' !in line
  }

  /** The header and key line as the patcher builds them. */
  lemma DaemonTexts()
    ensures "[" + "daemon" + "]" == Daemon && KeyLine("WaylandEnable", "false") == WaylandLine
    ensures '[' !in WaylandLine && WaylandLine[0] == 'W' && !IsSpace("false"[0])
    ensures NewSectionBlock("daemon", "WaylandEnable", "false") == "\n" + Daemon + "\n" + WaylandLine + "\n"
  {
  }

  /** Regrouping concatenations. */
  lemma Regroup(a: string, b: string, c: string, d: string)
    ensures a + b + c + d == a + (b + c + d)
    ensures a + b + c + d == a + b + (c + d)
    ensures a + (b + c) + d == a + b + c + d
  {
  }

  /** With one other line in [daemon], `WaylandEnable=false` is added after it. */
  lemma WaylandKeyAddedAfterLine(line: string)
    requires PlainLine(line)
    ensures var conf := Daemon + "\n" + line + "\n";
      WaylandDisabled(conf) == conf + (WaylandLine + "\n")
  {
    var body := "\n" + line + "\n";
    DaemonTexts();
    Regroup(Daemon, "\n", line, "\n");
    assert body[1] == line[0] && 'W' !in body;
    LeadingSectionGetsKeyAppended("daemon", body, "WaylandEnable", "false");
  }

  /** Re-running on the result of WaylandKeyAddedAfterLine changes nothing. */
  lemma WaylandKeyKeptOnRerun(line: string)
    requires PlainLine(line)
    ensures var conf := Daemon + "\n" + line + "\n" + (WaylandLine + "\n");
      WaylandDisabled(conf) == conf
  {
    var body := "\n" + line + "\n" + WaylandLine + "\n";
    DaemonTexts();
    Regroup(Daemon, "\n", line, "\n");
    Regroup("\n" + line + "\n", WaylandLine, "\n", "");
    assert Daemon + "\n" + line + "\n" + (WaylandLine + "\n") == Daemon + body;
    assert body[1] == line[0] && '[' !in body;
    PatchedLineAfterOneLine(line, "WaylandEnable", "false");
    LeadingSectionKeepsPatchedLine("daemon", body, "WaylandEnable", "false", |line| + 2);
  }

  /**
   * A `WaylandEnable = true` line, with blanks around the `=`, is found and
   * replaced whole by `WaylandEnable=false`: the line before it and the end
   * of the file are kept.
   */
  lemma SpacedWaylandLineRewritten(line: string)
    requires PlainLine(line)
    ensures WaylandDisabled(Daemon + "\n" + line + "\nWaylandEnable = true\n")
      == Daemon + "\n" + line + "\n" + WaylandLine + "\n"
  {
    var spaced := SpacedKeyLine("WaylandEnable", " ", " ", "true");
    var body := "\n" + line + "\n" + spaced + "\n";
    SpacedWaylandTexts();
    SpacedWaylandBody(line);
    assert |line| > 0 && !IsSpace(line[0]) && '\n' !in line && "WaylandEnable"[0] !in line;
    assert WaylandDisabled(Daemon + body) == EnsureLineInSection("[" + "daemon" + "]" + body, "daemon", "WaylandEnable", "false");
    hide *;
    SpacedKeyLineReplaced(line, "WaylandEnable", " ", " ", "true", "\n", "false");
    EnsureLineInLeadingSection("daemon", body, "WaylandEnable", "false");
    Regroup(Daemon, "\n" + line + "\n", WaylandLine, "\n");
    Regroup(Daemon, "\n", line, "\n");
  }

  /** The literal pieces of SpacedWaylandLineRewritten. */
  lemma SpacedWaylandTexts()
    ensures SpacedKeyLine("WaylandEnable", " ", " ", "true") == "WaylandEnable = true"
    ensures "[" + "daemon" + "]" == Daemon && KeyLine("WaylandEnable", "false") == WaylandLine
    ensures |"WaylandEnable"| > 0 && !IsSpace("WaylandEnable"[0]) && '\n' !in "WaylandEnable"
    ensures Blanks(" ") && |"true"| > 0 && !IsSpace("true"[0]) && '\n' !in "true" && "\n"[0] == '\n'
    ensures '\\' !in "WaylandEnable" && '\\' !in "false"
  {
  }

  /** The file of SpacedWaylandLineRewritten is the [daemon] header followed by its body. */
  lemma SpacedWaylandBody(line: string)
    requires PlainLine(line)
    ensures var body := "\n" + line + "\n" + "WaylandEnable = true" + "\n";
      Daemon + "\n" + line + "\nWaylandEnable = true\n" == Daemon + body
      && |body| >= 2 && body[0] == '\n' && body[1] == line[0] && '[' !in body
  {
  }

  /**
   * A file that already has `WaylandEnable=false` right under its [daemon]
   * header is still rewritten: the line is glued to the header line.
   */
  lemma WaylandLineGluedToHeader(rest: string)
    requires '[' !in rest
    ensures WaylandDisabled(Daemon + ("\n" + WaylandLine + "\n" + rest)) == Daemon + (WaylandLine + ("\n" + rest))
  {
    DaemonTexts();
    LeadingSectionKeyLineMerges("daemon", "WaylandEnable", "false", "false", rest);
  }

  /** After the glue, the [daemon] header no longer matches and the next run appends a second [daemon] block. */
  lemma GluedWaylandLineGetsSecondBlock(rest: string)
    requires '[' !in rest
    ensures var conf := Daemon + (WaylandLine + ("\n" + rest));
      WaylandDisabled(conf) == WithFinalNewline(conf) + ("\n" + Daemon + "\n" + WaylandLine + "\n")
  {
    var tail := WaylandLine + ("\n" + rest);
    DaemonTexts();
    assert tail[0] == 'W' && '[' !in tail;
    GluedHeaderCountsAsMissing("daemon", tail, "WaylandEnable", "false");
  }

  /**
   * Re-running the Wayland step does not settle: from a file that already
   * reads `WaylandEnable=false` under [daemon], two runs give two different
   * texts, each different from the one before.
   */
  lemma WaylandRerunsDoNotSettle(rest: string)
    requires '[' !in rest
    ensures var c0 := Daemon + ("\n" + WaylandLine + "\n" + rest);
      var c1 := WaylandDisabled(c0);
      var c2 := WaylandDisabled(c1);
      c1 != c0 && c2 != c1 && |c2| > |c1|
  {
    var c0 := Daemon + ("\n" + WaylandLine + "\n" + rest);
    var c1 := Daemon + (WaylandLine + ("\n" + rest));
    WaylandLineGluedToHeader(rest);
    GluedWaylandLineGetsSecondBlock(rest);
    assert |c1| < |c0|;
  }
}
