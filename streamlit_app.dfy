/** The interactive app: the compiler that takes each edge's connector from the
    row, the two lookup tables, the orientation rewrite of the compiled text, and
    the resolution of a clicked node to a link and a note. */
module StreamlitApp {
  import opened Strings
  import opened FlowTable
  import opened Mermaid
  import opened AttributeMap

  /** `df_to_mermaid(df, theme)`: builds the flowchart text line by line. */
  method DfToMermaid(rows: seq<Row>, theme: string) returns (code: string)
    ensures code == MermaidText(rows, theme, RowConnector)
  {
    ghost var head := [InitDirective(theme), DefaultDirection];
    code := "%%{init: {'theme': '" + theme + "'}}%%" + "\n";
    code := code + "flowchart TD" + "\n";
    HeaderText(theme, rows, RowConnector);

    for i := 0 to |rows|
      invariant code == JoinLines(head + EdgeLines(rows[..i], RowConnector))
    {
      var row := rows[i];
      var fromId := Trim(row.fromId);
      var toId := Trim(row.toId);
      var fromLabel := EscapeQuotes(row.fromLabel);
      var toLabel := EscapeQuotes(row.toLabel);
      var connector := Trim(row.connector);
      var line := "    " + fromId + "[\"" + fromLabel + "\"] " + connector
        + " " + toId + "[\"" + toLabel + "\"]";
      assert line == EdgeLine(row, RowConnector);
      EdgeTextStep(head, rows, i, RowConnector);
      code := code + line + "\n";
    }

    var unique := DropDuplicateFromIds(rows);
    ghost var body := head + EdgeLines(rows, RowConnector) + ["", ClickComment];
    CommentText(theme, rows, RowConnector, unique);
    code := code + "\n" + ClickComment + "\n";

    for k := 0 to |unique|
      invariant code == JoinLines(body + ClickLines(unique[..k]))
    {
      var row := unique[k];
      var id := Trim(row.fromId);
      var url := row.url.GetOr("#");
      var tip := row.tooltip.GetOr("");
      ClickTextStep(body, unique, k);
      if url != "#" || tip != "" {
        tip := EscapeQuotes(tip);
        var line := "    click " + id + " \"" + url + "\" \"" + tip + "\"";
        assert line == ClickLine(row);
        code := code + line + "\n";
      }
    }
    ClosingText(theme, rows, RowConnector);
  }

  /** One guarded insertion of the loop body: a non-empty key is set when it is
      new, or when its entry is empty and the value is not. */
  method OfferInto(m: map<string, string>, key: string, value: string) returns (m': map<string, string>)
    ensures m' == Offer(m, key, value)
  {
    m' := m;
    if key != "" {
      if key !in m' || (m'[key] == "" && value != "") {
        m' := m'[key := value];
      }
    }
  }

  /** `build_url_map(df)` (`col` is `UrlColumn`) and `build_note_map(df)` (`col`
      is `NotesColumn`): the table holds exactly the non-empty stripped
      identifiers and labels of the rows, each with the first non-empty value
      offered for it. */
  method BuildAttrMap(rows: seq<Row>, col: Column) returns (m: map<string, string>)
    ensures m == AttrMap(rows, col)
    ensures forall key :: key in m <==> KeySeen(rows, key)
    ensures forall key :: key in m ==> m[key] == FirstNonEmpty(rows, col, key)
  {
    m := map[];
    for i := 0 to |rows|
      invariant m == AttrMap(rows[..i], col)
    {
      var r := rows[i];
      var fid := Trim(r.fromId);
      var tid := Trim(r.toId);
      var flabel := Trim(r.fromLabel);
      var tlabel := Trim(r.toLabel);
      var value := AttrValue(r, col);
      ghost var m0 := m;
      m := OfferInto(m, fid, value);
      m := OfferInto(m, tid, value);
      m := OfferInto(m, flabel, value);
      m := OfferInto(m, tlabel, value);
      assert m == OfferRow(m0, r, col) by {
        assert RowKeys(r) == [fid, tid, flabel, tlabel];
      }
      AttrMapPrefixStep(rows, i, col);
    }
    assert rows[..|rows|] == rows;
    forall key ensures key in m <==> KeySeen(rows, key) {
      AttrMapCharacterized(rows, col, key);
    }
    forall key | key in m ensures m[key] == FirstNonEmpty(rows, col, key) {
      AttrMapCharacterized(rows, col, key);
    }
  }

  const TdHeader: string := "flowchart TD\n"

  /** The orientation rewrite `code.replace("flowchart TD\n", f"flowchart {o}\n", 1)`,
      applied only when an orientation code is given. */
  function OrientHeader(code: string, orientation: string): string {
    if orientation != "" then ReplaceFirst(code, TdHeader, "flowchart " + orientation + "\n") else code
  }

  /** In the compiled text, the header line is the first place `flowchart TD\n`
      occurs: the directive line before it holds no newline. */
  lemma HeaderIsFirstOccurrence(d: string, rest: string)
    requires d != [] && '\n' !in d && d[|d| - 1] != 'D'
    ensures OccursAt(d + "\n" + TdHeader + rest, TdHeader, |d| + 1)
    ensures forall j :: 0 <= j < |d| + 1 ==> !OccursAt(d + "\n" + TdHeader + rest, TdHeader, j)
  {
    var s := d + "\n" + TdHeader + rest;
    var p := TdHeader;
    assert |p| == 13 && p[11] == 'D' && p[12] == '\n';
    assert p[..12] == "flowchart TD";
    assert '\n' !in p[..12];
    assert s[|d| + 1..|d| + 1 + 13] == p;
    forall j | 0 <= j < |d| + 1 ensures !OccursAt(s, p, j) {
      if j + 13 <= |s| {
        var w := s[j..j + 13];
        if j + 12 < |d| {
          assert w[12] == d[j + 12];
          assert d[j + 12] in d;
        } else if j + 12 == |d| {
          assert w[11] == d[|d| - 1];
        } else {
          var q := j + 12 - (|d| + 1);
          assert 0 <= q < 12;
          assert w[12] == s[|d| + 1 + q] == p[q];
          assert p[q] == p[..12][q];
        }
      }
    }
  }

  lemma JoinTwoLinesThen(a: string, b: string, t: seq<string>)
    ensures JoinLines([a, b] + t) == a + "\n" + b + "\n" + JoinLines(t)
  {
    JoinLinesAppend([a, b], t);
    JoinTwoLines(a, b);
  }

  /** The compiled text is the directive line, the header line and the rest; the
      same holds with the header line replaced by `x`. */
  lemma CompiledTextShape(rows: seq<Row>, theme: string, style: ConnectorStyle, x: string)
    ensures MermaidText(rows, theme, style)
      == InitDirective(theme) + "\n" + TdHeader + JoinLines(MermaidLines(rows, theme, style)[2..])
    ensures JoinLines(MermaidLines(rows, theme, style)[1 := x])
      == InitDirective(theme) + "\n" + x + "\n" + JoinLines(MermaidLines(rows, theme, style)[2..])
  {
    var lines := MermaidLines(rows, theme, style);
    var d := InitDirective(theme);
    var t := lines[2..];
    assert lines == [d, DefaultDirection] + t;
    assert lines[1 := x] == [d, x] + t;
    JoinTwoLinesThen(d, DefaultDirection, t);
    JoinTwoLinesThen(d, x, t);
    assert DefaultDirection + "\n" == TdHeader;
  }

  /** Rewriting the header of text that opens with a one-line directive. */
  lemma ReplaceHeader(d: string, rest: string, orientation: string)
    requires d != [] && '\n' !in d && d[|d| - 1] != 'D'
    ensures ReplaceFirst(d + "\n" + TdHeader + rest, TdHeader, "flowchart " + orientation + "\n")
      == d + "\n" + ("flowchart " + orientation) + "\n" + rest
  {
    var s := d + "\n" + TdHeader + rest;
    var rep := "flowchart " + orientation + "\n";
    HeaderIsFirstOccurrence(d, rest);
    ReplaceFirstAt(s, TdHeader, rep, |d| + 1);
    assert s[..|d| + 1] == d + "\n";
    assert s[|d| + 1 + |TdHeader|..] == rest;
  }

  /** Choosing an orientation rewrites the header line of the compiled text and
      leaves every other line as it was. */
  lemma OrientHeaderRewritesDirection(rows: seq<Row>, theme: string, style: ConnectorStyle, orientation: string)
    requires '\n' !in theme && orientation != ""
    ensures OrientHeader(MermaidText(rows, theme, style), orientation)
      == JoinLines(MermaidLines(rows, theme, style)[1 := "flowchart " + orientation])
  {
    var d := InitDirective(theme);
    CompiledTextShape(rows, theme, style, "flowchart " + orientation);
    InitDirectiveNewlineFree(theme);
    assert d[|d| - 1] == '%';
    ReplaceHeader(d, JoinLines(MermaidLines(rows, theme, style)[2..]), orientation);
  }

  /** What the component reports after a click; `None` is a missing or null
      field. */
  datatype ClickEvent = ClickEvent(entityClicked: Option<string>, entityUrl: Option<string>, note: Option<string>)

  /** What the app shows for a click: the entity, and the link and the note when
      there is one worth showing. */
  datatype ClickPanel = ClickPanel(entity: string, link: Option<string>, notes: Option<string>)

  /** `reported or table.get(entity, '')`: the component's value when it is a
      non-empty string, otherwise the table's entry, otherwise the empty string. */
  function Resolve(reported: Option<string>, table: map<string, string>, entity: string): string {
    if reported.Some? && reported.value != "" then reported.value
    else if entity in table then table[entity]
    else ""
  }

  /** A resolved link or note is shown unless it is empty or the placeholder `#`. */
  predicate Shown(v: string) {
    v != "" && v != "#"
  }

  /** The click handler: nothing happens unless an entity was clicked; otherwise
      its link and its note are resolved and kept when worth showing. */
  function HandleClick(ev: ClickEvent, urlMap: map<string, string>, noteMap: map<string, string>): Option<ClickPanel> {
    if ev.entityClicked.None? || ev.entityClicked.value == "" then None
    else
      var entity := ev.entityClicked.value;
      var url := Resolve(ev.entityUrl, urlMap, entity);
      var note := Resolve(ev.note, noteMap, entity);
      Some(ClickPanel(entity, if Shown(url) then Some(url) else None, if Shown(note) then Some(note) else None))
  }

  /** With the tables built from the rows, a click on an entity shows the link the
      component reported, or else the first non-empty URL any row offers for that
      identifier or label, and only when it is neither empty nor `#`; the same
      holds for notes. */
  lemma HandleClickFromRows(rows: seq<Row>, ev: ClickEvent)
    requires ev.entityClicked.Some? && ev.entityClicked.value != ""
    ensures HandleClick(ev, AttrMap(rows, UrlColumn), AttrMap(rows, NotesColumn)).Some?
    ensures var p := HandleClick(ev, AttrMap(rows, UrlColumn), AttrMap(rows, NotesColumn)).value;
      var e := ev.entityClicked.value;
      var url := if ev.entityUrl.Some? && ev.entityUrl.value != "" then ev.entityUrl.value
                 else FirstNonEmpty(rows, UrlColumn, e);
      var note := if ev.note.Some? && ev.note.value != "" then ev.note.value
                  else FirstNonEmpty(rows, NotesColumn, e);
      && p.entity == e
      && (p.link.Some? <==> url != "" && url != "#") && (p.link.Some? ==> p.link.value == url)
      && (p.notes.Some? <==> note != "" && note != "#") && (p.notes.Some? ==> p.notes.value == note)
  {
    var e := ev.entityClicked.value;
    LookupIsFirstNonEmpty(rows, UrlColumn, e);
    LookupIsFirstNonEmpty(rows, NotesColumn, e);
  }

  /** The second diagram's click handler, under the editable code box: the same
      link resolution, and no note. */
  function HandleEditorClick(ev: ClickEvent, urlMap: map<string, string>): Option<ClickPanel> {
    if ev.entityClicked.None? || ev.entityClicked.value == "" then None
    else
      var entity := ev.entityClicked.value;
      var url := Resolve(ev.entityUrl, urlMap, entity);
      Some(ClickPanel(entity, if Shown(url) then Some(url) else None, None))
  }

  /** Both diagrams react to the same clicks and show the same link for them. */
  lemma EditorClickShowsSameLink(ev: ClickEvent, urlMap: map<string, string>, noteMap: map<string, string>)
    ensures HandleEditorClick(ev, urlMap).Some? <==> HandleClick(ev, urlMap, noteMap).Some?
    ensures HandleEditorClick(ev, urlMap).Some? ==>
      HandleEditorClick(ev, urlMap).value == HandleClick(ev, urlMap, noteMap).value.(notes := None)
  {
  }

  /** The table `create_sample_data()` returns. */
  function SampleRows(): seq<Row> {
    [ Row("A", "Project Start", "B", "Data Collection", "---",
          Some("Kickoff notes"), Some("#"), Some("")),
      Row("A", "Project Start", "C", "Analysis", "-- some text -->",
          Some("Define requirements"), Some("https://example.com/data"), Some("Note B")),
      Row("C", "Analysis", "D", "Review", "-.->",
          Some("Check results"), Some("https://example.com/analysis"), Some("Note C")),
      Row("D", "Review", "E", "Final Report", "<-->",
          Some("Final sign-off"), Some("https://example.com/report"), Some("Note D")) ]
  }

  /** The first row of `A` offers the placeholder `#`, which counts as a link. */
  lemma SampleUrlOfStart()
    ensures FirstNonEmpty(SampleRows(), UrlColumn, "A") == "#"
  {
    assert Trim("A") == "A";
    assert Mentions(SampleRows()[0], "A");
  }

  /** The first row of `A` offers an empty note, so the second row's note is taken. */
  lemma SampleNoteOfStart()
    ensures FirstNonEmpty(SampleRows(), NotesColumn, "A") == "Note B"
  {
    var rows := SampleRows();
    assert Trim("A") == "A";
    assert Mentions(rows[1], "A");
    assert rows[1..][0] == rows[1];
  }

  /** On the sample table, a click on `A` that the component reports without a
      link or a note shows no link, because the placeholder `#` of the first row
      is kept over the second row's URL, and shows the second row's note, because
      the first row's empty note is replaced. */
  lemma SampleClickOnStart()
    ensures HandleClick(ClickEvent(Some("A"), None, None),
                        AttrMap(SampleRows(), UrlColumn), AttrMap(SampleRows(), NotesColumn))
      == Some(ClickPanel("A", None, Some("Note B")))
  {
    SampleUrlOfStart();
    SampleNoteOfStart();
    HandleClickFromRows(SampleRows(), ClickEvent(Some("A"), None, None));
  }
}
