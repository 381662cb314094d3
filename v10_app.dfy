/** The earlier, static version of the compiler: the same text, except that every
    edge is drawn with the fixed arrow `-->` and the row's connector is ignored. */
module V10App {
  import opened Strings
  import opened FlowTable
  import opened Mermaid

  /** `df_to_mermaid(df, theme)` of the static version. */
  method DfToMermaid(rows: seq<Row>, theme: string) returns (code: string)
    ensures code == MermaidText(rows, theme, FixedArrow)
  {
    ghost var head := [InitDirective(theme), DefaultDirection];
    code := "%%{init: {'theme': '" + theme + "'}}%%" + "\n";
    code := code + "flowchart TD" + "\n";
    HeaderText(theme, rows, FixedArrow);

    for i := 0 to |rows|
      invariant code == JoinLines(head + EdgeLines(rows[..i], FixedArrow))
    {
      var row := rows[i];
      var fromId := Trim(row.fromId);
      var toId := Trim(row.toId);
      var fromLabel := EscapeQuotes(row.fromLabel);
      var toLabel := EscapeQuotes(row.toLabel);
      var line := "    " + fromId + "[\"" + fromLabel + "\"] --> " + toId + "[\"" + toLabel + "\"]";
      FixedArrowLine(row);
      EdgeTextStep(head, rows, i, FixedArrow);
      code := code + line + "\n";
    }

    var unique := DropDuplicateFromIds(rows);
    ghost var body := head + EdgeLines(rows, FixedArrow) + ["", ClickComment];
    CommentText(theme, rows, FixedArrow, unique);
    code := code + "\n" + ClickComment + "\n";

    for k := 0 to |unique|
      invariant code == JoinLines(body + ClickLines(unique[..k]))
    {
      var row := unique[k];
      var id := Trim(row.fromId);
      var url := row.url.GetOr("#");
      var tip := row.tooltip.GetOr("");
      ClickTextStep(body, unique, k);
      if url != "#" || tip != "" {
        tip := EscapeQuotes(tip);
        var line := "    click " + id + " \"" + url + "\" \"" + tip + "\"";
        assert line == ClickLine(row);
        code := code + line + "\n";
      }
    }
    ClosingText(theme, rows, FixedArrow);
  }

  /** The static version's edge line, written as its format string spells it. */
  lemma FixedArrowLine(r: Row)
    ensures EdgeLine(r, FixedArrow)
      == "    " + Trim(r.fromId) + "[\"" + EscapeQuotes(r.fromLabel) + "\"] --> "
         + Trim(r.toId) + "[\"" + EscapeQuotes(r.toLabel) + "\"]"
  {
    var a, b := "    " + Trim(r.fromId) + "[\"" + EscapeQuotes(r.fromLabel), Trim(r.toId) + "[\"" + EscapeQuotes(r.toLabel) + "\"]";
    assert EdgeLine(r, FixedArrow) == a + ("\"] " + "-->" + " ") + b;
    assert "\"] " + "-->" + " " == "\"] --> ";
  }
}
