/**
  The comparison report each `compare` writes, as the text of the output
  file.

  - app.py writes four sections (missing, present, mismatches, exact); each
    item line ends in a newline, and an empty list is replaced by one
    placeholder item (`or ["None"]`), so it prints "- None".
  - compare_trivy_dep.py writes three sections (no present list), joins the
    item lines with "\n" and prints a bare "None" for an empty list
    (`"\n".join(...) or "None"`); the text does not end in a newline.
  - compare_sbom.py writes the same as compare_trivy_dep.py under a title
    line.

  `Split` is `str.split("\n")`; the structure lemmas say which lines a
  reader of the file sees, and `DecodeKeys` reads a key section back.
 */
module Report {
  import opened Wrappers
  import opened PyJson
  import Names
  import opened Flatten
  import opened Reconcile

  const Title := "Comparison of dependencies vs SBOM"
  const MissingHeader := "====== Missing in SBOM ========"
  const PresentHeader := "====== Present in both ========"
  const MismatchHeader := "====== Version mismatches ========"
  const ExactHeader := "====== Exact matches ========"

  // ---------------------------------------------------------------------
  // Item lines (f-strings; a version is shown with `str()`)

  function KeyLine(k: string): string {
    "- " + k
  }

  function MismatchText(k: string, d: string, s: string): string {
    "- " + k + ": deps=" + d + ", sbom=" + s
  }

  function ExactText(k: string, v: string): string {
    "- " + k + ": " + v
  }

  function KeyLines(ks: seq<string>): (r: seq<string>)
    ensures |r| == |ks| && forall i :: 0 <= i < |ks| ==> r[i] == KeyLine(ks[i])
  {
    seq(|ks|, i requires 0 <= i < |ks| => KeyLine(ks[i]))
  }

  function MismatchLines(ts: seq<(string, Value, Value)>): (r: seq<string>)
    ensures |r| == |ts| && forall i :: 0 <= i < |ts| ==> r[i] == MismatchText(ts[i].0, Show(ts[i].1), Show(ts[i].2))
  {
    seq(|ts|, i requires 0 <= i < |ts| => MismatchText(ts[i].0, Show(ts[i].1), Show(ts[i].2)))
  }

  function ExactLines(es: seq<Entry>): (r: seq<string>)
    ensures |r| == |es| && forall i :: 0 <= i < |es| ==> r[i] == ExactText(es[i].0, Show(es[i].1))
  {
    seq(|es|, i requires 0 <= i < |es| => ExactText(es[i].0, Show(es[i].1)))
  }

  // ---------------------------------------------------------------------
  // Text primitives

  /** `f.writelines(l + "\n" for l in ls)`. */
  function Lines(ls: seq<string>): string {
    if |ls| == 0 then "" else ls[0] + "\n" + Lines(ls[1..])
  }

  /** `"\n".join(ls)`. */
  function Join(ls: seq<string>): string {
    if |ls| == 0 then "" else if |ls| == 1 then ls[0] else ls[0] + "\n" + Join(ls[1..])
  }

  /** `"\n".join(ls) or "None"`. */
  function JoinOr(ls: seq<string>): string {
    var j := Join(ls);
    if j == "" then "None" else j
  }

  /** `s.split("\n")`. */
  function Split(s: string): (r: seq<string>)
    ensures |r| > 0
    decreases |s|
  {
    if |s| == 0 then [""]
    else if s[0] == '\n' then [""] + Split(s[1..])
    else
      var r := Split(s[1..]);
      [[s[0]] + r[0]] + r[1..]
  }

  predicate OneLine(s: string) {
    '\n' !in s
  }

  predicate AllOneLine(ls: seq<string>) {
    forall i :: 0 <= i < |ls| ==> OneLine(ls[i])
  }

  // ---------------------------------------------------------------------
  // The three reports

  /** app.py's lists with the `or [placeholder]` applied. */
  function AppKeyLines(ks: seq<string>): seq<string> {
    if |ks| == 0 then [KeyLine("None")] else KeyLines(ks)
  }

  function AppMismatchLines(ts: seq<(string, Value, Value)>): seq<string> {
    if |ts| == 0 then [MismatchText("None", "", "")] else MismatchLines(ts)
  }

  function AppExactLines(es: seq<Entry>): seq<string> {
    if |es| == 0 then [ExactText("None", "")] else ExactLines(es)
  }

  /** The file app.py writes, one operand per `f.write` / `f.writelines` call. */
  function AppReport(c: Classification): string {
    (MissingHeader + "\n") + (Lines(AppKeyLines(c.missing)) +
    (("\n" + PresentHeader + "\n") + (Lines(AppKeyLines(c.present)) +
    (("\n" + MismatchHeader + "\n") + (Lines(AppMismatchLines(c.mismatches)) +
    (("\n" + ExactHeader + "\n") + Lines(AppExactLines(c.exact))))))))
  }

  /** The file compare_trivy_dep.py writes. */
  function TrivyReport(c: Classification): string {
    (MissingHeader + "\n") + (JoinOr(KeyLines(c.missing)) +
    (("\n\n" + MismatchHeader + "\n") + (JoinOr(MismatchLines(c.mismatches)) +
    (("\n\n" + ExactHeader + "\n") + JoinOr(ExactLines(c.exact))))))
  }

  /** The file compare_sbom.py writes: a title line, then the same sections. */
  function SbomReport(c: Classification): string {
    (Title + "\n") + TrivyReport(c)
  }

  // ---------------------------------------------------------------------
  // Splitting text back into lines

  lemma {:induction false} SplitOneLine(a: string)
    requires OneLine(a)
    ensures Split(a) == [a]
    decreases |a|
  {
    if |a| > 0 {
      SplitOneLine(a[1..]);
      assert [a[0]] + a[1..] == a;
    }
  }

  lemma {:induction false} SplitAfterLine(a: string, b: string)
    requires OneLine(a)
    ensures Split(a + "\n" + b) == [a] + Split(b)
    decreases |a|
  {
    if |a| == 0 {
      assert a + "\n" + b == "\n" + b;
      assert ("\n" + b)[1..] == b;
    } else {
      assert (a + "\n" + b)[1..] == a[1..] + "\n" + b;
      SplitAfterLine(a[1..], b);
      assert [a[0]] + a[1..] == a;
    }
  }

  /** Text written line by line splits into its lines and a final empty piece. */
  lemma {:induction false} SplitLines(ls: seq<string>)
    requires AllOneLine(ls)
    ensures Split(Lines(ls)) == ls + [""]
    decreases |ls|
  {
    if |ls| > 0 {
      var rest := Lines(ls[1..]);
      assert Lines(ls) == ls[0] + "\n" + rest;
      SplitAfterLine(ls[0], rest);
      assert AllOneLine(ls[1..]) by {
        assert forall i :: 0 <= i < |ls| - 1 ==> ls[1..][i] == ls[i + 1];
      }
      SplitLines(ls[1..]);
      assert [ls[0]] + (ls[1..] + [""]) == ls + [""];
    }
  }

  /** Joined text splits back into the joined lines. */
  lemma {:induction false} SplitJoin(ls: seq<string>)
    requires |ls| > 0 && AllOneLine(ls)
    ensures Split(Join(ls)) == ls
    decreases |ls|
  {
    if |ls| == 1 {
      SplitOneLine(ls[0]);
    } else {
      SplitAfterLine(ls[0], Join(ls[1..]));
      SplitJoin(ls[1..]);
      assert [ls[0]] + ls[1..] == ls;
    }
  }

  lemma {:induction false} LinesAppend(a: seq<string>, b: seq<string>)
    ensures Lines(a + b) == Lines(a) + Lines(b)
    decreases |a|
  {
    if |a| == 0 {
      assert a + b == b;
    } else {
      assert (a + b)[1..] == a[1..] + b;
      LinesAppend(a[1..], b);
    }
  }

  /** For a non-empty list, joining and then ending with a newline is writing it line by line. */
  lemma {:induction false} JoinThenNewline(ls: seq<string>)
    requires |ls| > 0
    ensures Join(ls) + "\n" == Lines(ls)
    decreases |ls|
  {
    if |ls| > 1 {
      JoinThenNewline(ls[1..]);
    }
  }

  // ---------------------------------------------------------------------
  // Layout of the reports

  /** The lines a reader sees in app.py's file, before the final newline. */
  function AppLayout(c: Classification): seq<string> {
    [MissingHeader] + (AppKeyLines(c.missing) +
    (["", PresentHeader] + (AppKeyLines(c.present) +
    (["", MismatchHeader] + (AppMismatchLines(c.mismatches) +
    (["", ExactHeader] + AppExactLines(c.exact)))))))
  }

  /** No name or shown version spans lines. */
  predicate OneLineItems(c: Classification) {
    && (forall i :: 0 <= i < |c.missing| ==> OneLine(c.missing[i]))
    && (forall i :: 0 <= i < |c.present| ==> OneLine(c.present[i]))
    && (forall i :: 0 <= i < |c.mismatches| ==>
          OneLine(c.mismatches[i].0) && OneLine(Show(c.mismatches[i].1)) && OneLine(Show(c.mismatches[i].2)))
    && (forall i :: 0 <= i < |c.exact| ==> OneLine(c.exact[i].0) && OneLine(Show(c.exact[i].1)))
  }

  lemma LinesHead(h: string, rest: seq<string>)
    ensures Lines([h] + rest) == (h + "\n") + Lines(rest)
  {
    assert ([h] + rest)[1..] == rest;
  }

  /** A blank line and a header line, then the rest. */
  lemma LinesHeaded(h: string, rest: seq<string>)
    ensures Lines(["", h] + rest) == ("\n" + h + "\n") + Lines(rest)
  {
    assert (["", h] + rest)[1..] == [h] + rest;
    LinesHead(h, rest);
  }

  lemma AppReportIsLines(c: Classification)
    ensures AppReport(c) == Lines(AppLayout(c))
  {
    var a, b, m, e := AppKeyLines(c.missing), AppKeyLines(c.present),
                      AppMismatchLines(c.mismatches), AppExactLines(c.exact);
    var t3 := ["", ExactHeader] + e;
    LinesHeaded(ExactHeader, e);
    var t2 := ["", MismatchHeader] + (m + t3);
    LinesAppend(m, t3);
    LinesHeaded(MismatchHeader, m + t3);
    var t1 := ["", PresentHeader] + (b + t2);
    LinesAppend(b, t2);
    LinesHeaded(PresentHeader, b + t2);
    LinesAppend(a, t1);
    LinesHead(MissingHeader, a + t1);
  }

  /** The title and the section headers are single lines. */
  lemma ConstantsOneLine()
    ensures OneLine(Title) && OneLine(MissingHeader) && OneLine(PresentHeader)
    ensures OneLine(MismatchHeader) && OneLine(ExactHeader)
  {
    assert OneLine(Title) by {
      forall i | 0 <= i < |Title| ensures Title[i] != '\n' { }
    }
    assert OneLine(MissingHeader) by {
      forall i | 0 <= i < |MissingHeader| ensures MissingHeader[i] != '\n' { }
    }
    assert OneLine(PresentHeader) by {
      forall i | 0 <= i < |PresentHeader| ensures PresentHeader[i] != '\n' { }
    }
    assert OneLine(MismatchHeader) by {
      forall i | 0 <= i < |MismatchHeader| ensures MismatchHeader[i] != '\n' { }
    }
    assert OneLine(ExactHeader) by {
      forall i | 0 <= i < |ExactHeader| ensures ExactHeader[i] != '\n' { }
    }
  }

  /** A header line after a blank line, followed by one-line lines. */
  lemma HeadedOneLine(h: string, rest: seq<string>)
    requires OneLine(h) && AllOneLine(rest)
    ensures AllOneLine([h] + rest) && AllOneLine(["", h] + rest)
  {
    assert forall i :: 1 <= i < |[h] + rest| ==> ([h] + rest)[i] == rest[i - 1];
    assert forall i :: 2 <= i < |["", h] + rest| ==> (["", h] + rest)[i] == rest[i - 2];
  }

  lemma AppLinesOneLine(c: Classification)
    requires OneLineItems(c)
    ensures AllOneLine(AppLayout(c))
  {
    ItemLinesOneLine(c);
    ConstantsOneLine();
    var a, b, m, e := AppKeyLines(c.missing), AppKeyLines(c.present),
                      AppMismatchLines(c.mismatches), AppExactLines(c.exact);
    assert AllOneLine(a) && AllOneLine(b) && AllOneLine(m) && AllOneLine(e) by {
      assert [KeyLine("None")] == ([KeyLine("None")] + [MismatchText("None", "", ""), ExactText("None", ""), "None"])[..1];
      assert [MismatchText("None", "", "")] == ([KeyLine("None")] + [MismatchText("None", "", ""), ExactText("None", ""), "None"])[1..2];
      assert [ExactText("None", "")] == ([KeyLine("None")] + [MismatchText("None", "", ""), ExactText("None", ""), "None"])[2..3];
    }
    var t3 := ["", ExactHeader] + e;
    HeadedOneLine(ExactHeader, e);
    var t2 := ["", MismatchHeader] + (m + t3);
    AllOneLineAppend(m, t3);
    HeadedOneLine(MismatchHeader, m + t3);
    var t1 := ["", PresentHeader] + (b + t2);
    AllOneLineAppend(b, t2);
    HeadedOneLine(PresentHeader, b + t2);
    AllOneLineAppend(a, t1);
    HeadedOneLine(MissingHeader, a + t1);
  }

  /** app.py's file is the layout's lines, each ended by a newline. */
  lemma AppReportSplits(c: Classification)
    requires OneLineItems(c)
    ensures Split(AppReport(c)) == AppLayout(c) + [""]
  {
    AppReportIsLines(c);
    AppLinesOneLine(c);
    SplitLines(AppLayout(c));
  }

  /** A list shown as `"\n".join(...) or "None"`. */
  function OrNone(ls: seq<string>): seq<string> {
    if |ls| == 0 then ["None"] else ls
  }

  /** The lines a reader sees in compare_trivy_dep.py's file. */
  function TrivyLayout(c: Classification): seq<string> {
    [MissingHeader] + (OrNone(KeyLines(c.missing)) +
    (["", MismatchHeader] + (OrNone(MismatchLines(c.mismatches)) +
    (["", ExactHeader] + OrNone(ExactLines(c.exact))))))
  }

  /** Item lines are never empty, so `or "None"` fires exactly on an empty list. */
  lemma JoinOrIsJoinOrNone(ls: seq<string>)
    requires forall i :: 0 <= i < |ls| ==> |ls[i]| >= 2 && ls[i][..2] == "- "
    ensures JoinOr(ls) == Join(OrNone(ls))
    ensures JoinOr(ls) == "None" <==> |ls| == 0
  {
    if |ls| > 0 {
      assert |Join(ls)| >= 2 && Join(ls)[..2] == "- " by {
        if |ls| > 1 {
          assert Join(ls) == ls[0] + ("\n" + Join(ls[1..]));
        }
      }
      assert "None"[..2] == "No";
      assert Join(ls) != "None";
    }
  }

  lemma ItemLinesAreDashed(c: Classification)
    ensures forall i :: 0 <= i < |c.missing| ==> |KeyLines(c.missing)[i]| >= 2 && KeyLines(c.missing)[i][..2] == "- "
    ensures forall i :: 0 <= i < |c.mismatches| ==>
              |MismatchLines(c.mismatches)[i]| >= 2 && MismatchLines(c.mismatches)[i][..2] == "- "
    ensures forall i :: 0 <= i < |c.exact| ==> |ExactLines(c.exact)[i]| >= 2 && ExactLines(c.exact)[i][..2] == "- "
  {
  }

  lemma {:induction false} JoinAppend(x: seq<string>, y: seq<string>)
    requires |x| > 0 && |y| > 0
    ensures Join(x + y) == Join(x) + "\n" + Join(y)
    decreases |x|
  {
    assert (x + y)[0] == x[0];
    assert (x + y)[1..] == x[1..] + y;
    if |x| > 1 {
      JoinAppend(x[1..], y);
    }
  }

  /** A section after `x`: blank line, header line, then the section's lines. */
  lemma JoinSection(x: seq<string>, h: string, rest: seq<string>)
    requires |x| > 0 && |rest| > 0
    ensures Join(x + (["", h] + rest)) == Join(x) + (("\n\n" + h + "\n") + Join(rest))
  {
    JoinAppend(x, ["", h] + rest);
    assert (["", h] + rest)[1..] == [h] + rest;
    assert ([h] + rest)[1..] == rest;
    var jx, jr := Join(x), Join(rest);
    assert Join(["", h] + rest) == "" + "\n" + (h + "\n" + jr);
    calc {
      (jx + "\n") + ("" + "\n" + (h + "\n" + jr));
      { assert "" + "\n" == "\n"; }
      (jx + "\n") + ("\n" + (h + "\n" + jr));
      { Assoc(jx, "\n", "\n" + (h + "\n" + jr)); }
      jx + ("\n" + ("\n" + (h + "\n" + jr)));
      { Assoc("\n", "\n", h + "\n" + jr); assert "\n" + "\n" == "\n\n"; }
      jx + ("\n\n" + ((h + "\n") + jr));
      { Assoc("\n\n", h + "\n", jr); Assoc("\n\n", h, "\n"); }
      jx + ((("\n\n" + h) + "\n") + jr);
    }
  }

  lemma Assoc(a: string, b: string, c: string)
    ensures (a + b) + c == a + (b + c)
  {
  }

  lemma TrivyReportIsJoin(c: Classification)
    ensures TrivyReport(c) == Join(TrivyLayout(c))
  {
    var a, m, e := KeyLines(c.missing), MismatchLines(c.mismatches), ExactLines(c.exact);
    ItemLinesAreDashed(c);
    JoinOrIsJoinOrNone(a);
    JoinOrIsJoinOrNone(m);
    JoinOrIsJoinOrNone(e);
    var ja, jm, je := OrNone(a), OrNone(m), OrNone(e);
    var y := jm + (["", ExactHeader] + je);
    JoinSection(jm, ExactHeader, je);
    JoinSection(ja, MismatchHeader, y);
    var x := ja + (["", MismatchHeader] + y);
    assert ([MissingHeader] + x)[1..] == x;
  }

  /** compare_trivy_dep.py's file is the layout's lines joined, with no final newline. */
  lemma TrivyReportSplits(c: Classification)
    requires OneLineItems(c)
    ensures Split(TrivyReport(c)) == TrivyLayout(c)
  {
    TrivyReportIsJoin(c);
    TrivyLinesOneLine(c);
    SplitJoin(TrivyLayout(c));
  }

  lemma TrivyLinesOneLine(c: Classification)
    requires OneLineItems(c)
    ensures AllOneLine(TrivyLayout(c))
  {
    ItemLinesOneLine(c);
    ConstantsOneLine();
    var ja, jm, je := OrNone(KeyLines(c.missing)), OrNone(MismatchLines(c.mismatches)), OrNone(ExactLines(c.exact));
    assert AllOneLine(ja) && AllOneLine(jm) && AllOneLine(je) by {
      assert ["None"] == ([KeyLine("None")] + [MismatchText("None", "", ""), ExactText("None", ""), "None"])[3..];
    }
    var y := ["", ExactHeader] + je;
    HeadedOneLine(ExactHeader, je);
    AllOneLineAppend(jm, y);
    HeadedOneLine(MismatchHeader, jm + y);
    AllOneLineAppend(ja, ["", MismatchHeader] + (jm + y));
    HeadedOneLine(MissingHeader, ja + (["", MismatchHeader] + (jm + y)));
  }

  lemma AllOneLineAppend(a: seq<string>, b: seq<string>)
    requires AllOneLine(a) && AllOneLine(b)
    ensures AllOneLine(a + b)
  {
    assert forall i :: |a| <= i < |a + b| ==> (a + b)[i] == b[i - |a|];
  }

  /** Item lines built from one-line names and versions are one line each. */
  lemma ItemLinesOneLine(c: Classification)
    requires OneLineItems(c)
    ensures AllOneLine(KeyLines(c.missing)) && AllOneLine(KeyLines(c.present))
    ensures AllOneLine(MismatchLines(c.mismatches)) && AllOneLine(ExactLines(c.exact))
    ensures AllOneLine([KeyLine("None")] + [MismatchText("None", "", ""), ExactText("None", ""), "None"])
  {
    forall k | OneLine(k) ensures OneLine(KeyLine(k)) { }
    forall k, d, s | OneLine(k) && OneLine(d) && OneLine(s) ensures OneLine(MismatchText(k, d, s)) { }
    forall k, v | OneLine(k) && OneLine(v) ensures OneLine(ExactText(k, v)) { }
  }

  /** compare_sbom.py's file: the title line, then compare_trivy_dep.py's lines. */
  lemma SbomReportSplits(c: Classification)
    requires OneLineItems(c)
    ensures Split(SbomReport(c)) == [Title] + TrivyLayout(c)
  {
    var t := TrivyReport(c);
    TrivyReportSplits(c);
    ConstantsOneLine();
    SplitAfterLine(Title, t);
  }

  // ---------------------------------------------------------------------
  // Reading a key section back

  /** The names listed in a key section of app.py's file; the placeholder means none. */
  function DecodeKeys(lines: seq<string>): seq<string> {
    if lines == [KeyLine("None")] then []
    else seq(|lines|, i requires 0 <= i < |lines| => if |lines[i]| >= 2 then lines[i][2..] else lines[i])
  }

  /** A normalized name is lower-case, so it is never the placeholder "None". */
  lemma NormalizedIsNotNone(k: string)
    requires Names.IsNormalized(k)
    ensures k != "None"
  {
  }

  /** A missing or present section of app.py's file reads back as the names it lists. */
  lemma DecodeKeysRoundTrip(ks: seq<string>)
    requires forall i :: 0 <= i < |ks| ==> Names.IsNormalized(ks[i])
    ensures DecodeKeys(AppKeyLines(ks)) == ks
  {
    if |ks| > 0 {
      var lines := KeyLines(ks);
      NormalizedIsNotNone(ks[0]);
      assert KeyLine(ks[0])[2..] == ks[0];
      assert lines != [KeyLine("None")];
      forall i | 0 <= i < |ks| ensures DecodeKeys(lines)[i] == ks[i] {
        assert KeyLine(ks[i])[2..] == ks[i];
      }
    }
  }

  /** In app.py's file a key section is the placeholder exactly when its list is empty. */
  lemma AppPlaceholderIff(ks: seq<string>)
    requires forall i :: 0 <= i < |ks| ==> Names.IsNormalized(ks[i])
    ensures AppKeyLines(ks) == [KeyLine("None")] <==> |ks| == 0
  {
    DecodeKeysRoundTrip(ks);
  }
}
