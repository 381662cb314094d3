/** The Mermaid flowchart source that `df_to_mermaid` produces from an edge list,
    as a specification shared by both versions of the compiler: the version that
    takes each edge's connector from the row and the version that always draws
    `-->`. The text is a theme directive, the `flowchart TD` header, one edge line
    per row, a blank line, a comment, and one `click` line per distinct raw
    `From_ID` whose first row carries a link or a tooltip. */
module Mermaid {
  import opened Strings
  import opened FlowTable

  /** Where an edge line's connector comes from. */
  datatype ConnectorStyle = RowConnector | FixedArrow

  function InitDirective(theme: string): string {
    "%%{init: {'theme': '" + theme + "'}}%%"
  }

  const DefaultDirection: string := "flowchart TD"

  /** `    %% Interactive Elements (Tooltips & Links)`, written in pieces so that
      the verifier can see cheaply that it holds no newline. */
  const ClickComment: string := "    %% " + "Interactive " + "Elements " + "(Tooltips & Links)"

  function Connector(r: Row, style: ConnectorStyle): string {
    match style
    case RowConnector => Trim(r.connector)
    case FixedArrow => "-->"
  }

  /** `    <id>["<label>"] <connector> <id>["<label>"]`: identifiers and connector
      are stripped, labels are not stripped but have their quotes escaped. */
  function EdgeLine(r: Row, style: ConnectorStyle): string {
    "    " + Trim(r.fromId) + "[\"" + EscapeQuotes(r.fromLabel) + "\"] " + Connector(r, style)
    + " " + Trim(r.toId) + "[\"" + EscapeQuotes(r.toLabel) + "\"]"
  }

  function EdgeLines(rows: seq<Row>, style: ConnectorStyle): seq<string> {
    if rows == [] then []
    else EdgeLines(rows[..|rows| - 1], style) + [EdgeLine(rows[|rows| - 1], style)]
  }

  /** Extending the rows by one extends the edge lines by that row's line. */
  lemma EdgeLinesPrefixStep(rows: seq<Row>, i: nat, style: ConnectorStyle)
    requires i < |rows|
    ensures EdgeLines(rows[..i + 1], style) == EdgeLines(rows[..i], style) + [EdgeLine(rows[i], style)]
  {
    assert rows[..i + 1][..i] == rows[..i];
  }

  /** Every row gives exactly one edge line, duplicates included, in input order. */
  lemma {:induction false} EdgeLinesInOrder(rows: seq<Row>, style: ConnectorStyle)
    ensures |EdgeLines(rows, style)| == |rows|
    ensures forall i :: 0 <= i < |rows| ==> EdgeLines(rows, style)[i] == EdgeLine(rows[i], style)
  {
    if rows != [] {
      EdgeLinesInOrder(rows[..|rows| - 1], style);
    }
  }

  function FromIds(rows: seq<Row>): set<string> {
    set i | 0 <= i < |rows| :: rows[i].fromId
  }

  /** Row `i` is the first row with its raw `From_ID`. */
  predicate IsFirstOf(rows: seq<Row>, i: int)
    requires 0 <= i < |rows|
  {
    forall j :: 0 <= j < i ==> rows[j].fromId != rows[i].fromId
  }

  lemma FromIdsSnoc(rows: seq<Row>, r: Row)
    ensures FromIds(rows + [r]) == FromIds(rows) + {r.fromId}
  {
    var s := rows + [r];
    assert s[|rows|] == r;
    forall id | id in FromIds(s) ensures id in FromIds(rows) + {r.fromId} {
      var i :| 0 <= i < |s| && s[i].fromId == id;
      if i < |rows| {
        assert rows[i] == s[i];
      }
    }
    forall id | id in FromIds(rows) ensures id in FromIds(s) {
      var i :| 0 <= i < |rows| && rows[i].fromId == id;
      assert s[i] == rows[i];
    }
  }

  /** `df.drop_duplicates(subset=['From_ID'])` on the raw (unstripped)
      identifiers: a row is kept when no earlier kept row has its identifier. */
  function DropDuplicateFromIds(rows: seq<Row>): seq<Row> {
    if rows == [] then []
    else
      var kept := DropDuplicateFromIds(rows[..|rows| - 1]);
      var r := rows[|rows| - 1];
      if r.fromId in FromIds(kept) then kept else kept + [r]
  }

  /** The rows `drop_duplicates` keeps cover every identifier of the input, and
      there are no more of them than there are rows. */
  lemma {:induction false} DropDuplicatesCover(rows: seq<Row>)
    ensures |DropDuplicateFromIds(rows)| <= |rows|
    ensures FromIds(DropDuplicateFromIds(rows)) == FromIds(rows)
  {
    if rows != [] {
      var front := rows[..|rows| - 1];
      var r := rows[|rows| - 1];
      DropDuplicatesCover(front);
      assert rows == front + [r];
      FromIdsSnoc(front, r);
      FromIdsSnoc(DropDuplicateFromIds(front), r);
    }
  }

  /** The rows `drop_duplicates` keeps have pairwise different identifiers, so
      there are exactly as many of them as there are distinct identifiers. */
  lemma {:induction false} DropDuplicatesDistinct(rows: seq<Row>)
    ensures |DropDuplicateFromIds(rows)| == |FromIds(rows)|
    ensures forall a, b :: 0 <= a < b < |DropDuplicateFromIds(rows)| ==>
      DropDuplicateFromIds(rows)[a].fromId != DropDuplicateFromIds(rows)[b].fromId
  {
    if rows != [] {
      var front := rows[..|rows| - 1];
      var r := rows[|rows| - 1];
      var kept := DropDuplicateFromIds(front);
      DropDuplicatesDistinct(front);
      DropDuplicatesCover(front);
      assert rows == front + [r];
      FromIdsSnoc(front, r);
      if r.fromId !in FromIds(kept) {
        assert DropDuplicateFromIds(rows) == kept + [r];
        assert r.fromId !in FromIds(front);
        assert FromIds(rows) == FromIds(front) + {r.fromId};
        assert |FromIds(front) + {r.fromId}| == |FromIds(front)| + 1;
        forall a | 0 <= a < |kept| ensures kept[a].fromId != r.fromId {
          assert kept[a].fromId in FromIds(kept);
        }
      } else {
        assert DropDuplicateFromIds(rows) == kept;
        assert r.fromId in FromIds(front);
        assert FromIds(rows) == FromIds(front);
      }
    }
  }

  /** A first occurrence in a prefix of the rows is a first occurrence in the
      whole table, and the other way round. */
  lemma IsFirstOfPrefix(rows: seq<Row>, n: nat, i: nat)
    requires i < n <= |rows|
    ensures IsFirstOf(rows[..n], i) <==> IsFirstOf(rows, i)
  {
    assert forall j :: 0 <= j <= i ==> rows[..n][j] == rows[j];
  }

  /** Reference for `drop_duplicates`: among the first `n` rows, those that are
      first occurrences of their identifier, in input order. */
  function FirstOccurrences(rows: seq<Row>, n: nat): seq<Row>
    requires n <= |rows|
  {
    if n == 0 then []
    else FirstOccurrences(rows, n - 1) + (if IsFirstOf(rows, n - 1) then [rows[n - 1]] else [])
  }

  /** The first occurrences among the first `m` rows do not depend on the rows
      after the first `n`. */
  lemma {:induction false} FirstOccurrencesPrefix(rows: seq<Row>, m: nat, n: nat)
    requires m <= n <= |rows|
    ensures FirstOccurrences(rows[..n], m) == FirstOccurrences(rows, m)
  {
    if m > 0 {
      FirstOccurrencesPrefix(rows, m - 1, n);
      IsFirstOfPrefix(rows, n, m - 1);
    }
  }

  /** Every first occurrence among the first `n` rows is kept by the reference. */
  lemma {:induction false} FirstOccurrencesComplete(rows: seq<Row>, n: nat)
    requires n <= |rows|
    ensures forall i :: 0 <= i < n && IsFirstOf(rows, i) ==> rows[i] in FirstOccurrences(rows, n)
  {
    if n > 0 {
      FirstOccurrencesComplete(rows, n - 1);
      var prev := FirstOccurrences(rows, n - 1);
      var extra := if IsFirstOf(rows, n - 1) then [rows[n - 1]] else [];
      assert FirstOccurrences(rows, n) == prev + extra;
      forall i | 0 <= i < n && IsFirstOf(rows, i) ensures rows[i] in prev + extra {
        if i < n - 1 {
          assert rows[i] in prev;
        } else {
          assert rows[i] in extra;
        }
      }
    }
  }

  /** Every row the reference keeps is a first occurrence. */
  lemma {:induction false} FirstOccurrencesSound(rows: seq<Row>, n: nat)
    requires n <= |rows|
    ensures forall r :: r in FirstOccurrences(rows, n) ==>
      exists i :: 0 <= i < n && IsFirstOf(rows, i) && r == rows[i]
  {
    if n > 0 {
      FirstOccurrencesSound(rows, n - 1);
      var prev := FirstOccurrences(rows, n - 1);
      var extra := if IsFirstOf(rows, n - 1) then [rows[n - 1]] else [];
      assert FirstOccurrences(rows, n) == prev + extra;
      forall r | r in prev + extra ensures exists i :: 0 <= i < n && IsFirstOf(rows, i) && r == rows[i] {
        if r in prev {
          var i :| 0 <= i < n - 1 && IsFirstOf(rows, i) && r == rows[i];
        } else {
          assert r in extra;
          assert IsFirstOf(rows, n - 1) && r == rows[n - 1];
        }
      }
    }
  }

  /** A last row whose identifier was seen before is dropped, and is not a first
      occurrence. */
  lemma DropStepSeen(rows: seq<Row>)
    requires rows != []
    requires rows[|rows| - 1].fromId in FromIds(DropDuplicateFromIds(rows[..|rows| - 1]))
    ensures DropDuplicateFromIds(rows) == DropDuplicateFromIds(rows[..|rows| - 1])
    ensures !IsFirstOf(rows, |rows| - 1)
  {
    var n := |rows| - 1;
    var front := rows[..n];
    DropDuplicatesCover(front);
    assert rows[n].fromId in FromIds(front);
    var j :| 0 <= j < n && front[j].fromId == rows[n].fromId;
    assert rows[j] == front[j];
  }

  /** A last row with a new identifier is kept, and is a first occurrence. */
  lemma DropStepNew(rows: seq<Row>)
    requires rows != []
    requires rows[|rows| - 1].fromId !in FromIds(DropDuplicateFromIds(rows[..|rows| - 1]))
    ensures DropDuplicateFromIds(rows) == DropDuplicateFromIds(rows[..|rows| - 1]) + [rows[|rows| - 1]]
    ensures IsFirstOf(rows, |rows| - 1)
  {
    var n := |rows| - 1;
    var front := rows[..n];
    DropDuplicatesCover(front);
    forall j | 0 <= j < n ensures rows[j].fromId != rows[n].fromId {
      assert rows[j] == front[j];
      assert front[j].fromId in FromIds(front);
    }
  }

  /** `drop_duplicates` keeps exactly the first row of every identifier, in
      input order. */
  lemma {:induction false} DropDuplicatesKeepsFirstSeen(rows: seq<Row>)
    ensures DropDuplicateFromIds(rows) == FirstOccurrences(rows, |rows|)
  {
    if rows != [] {
      var n := |rows| - 1;
      DropDuplicatesKeepsFirstSeen(rows[..n]);
      FirstOccurrencesPrefix(rows, n, n);
      if rows[n].fromId in FromIds(DropDuplicateFromIds(rows[..n])) {
        DropStepSeen(rows);
      } else {
        DropStepNew(rows);
      }
    }
  }

  /** The link of a click line: a missing URL becomes the placeholder `#`. */
  function ClickUrl(r: Row): string {
    r.url.GetOr("#")
  }

  /** The tooltip of a click line: a missing tooltip becomes the empty string. */
  function ClickTip(r: Row): string {
    r.tooltip.GetOr("")
  }

  /** A row is made clickable when it has a real link or a tooltip; the test is
      on the unescaped tooltip. */
  predicate HasClick(r: Row) {
    ClickUrl(r) != "#" || ClickTip(r) != ""
  }

  /** `    click <id> "<url>" "<tooltip>"`: the identifier is stripped, the tooltip
      escaped, the URL used as it is. */
  function ClickLine(r: Row): string {
    "    click " + Trim(r.fromId) + " \"" + ClickUrl(r) + "\" \"" + EscapeQuotes(ClickTip(r)) + "\""
  }

  function ClickLines(u: seq<Row>): seq<string> {
    if u == [] then []
    else
      var last := u[|u| - 1];
      ClickLines(u[..|u| - 1]) + (if HasClick(last) then [ClickLine(last)] else [])
  }

  /** Extending the rows by one adds that row's click line when it has one. */
  lemma ClickLinesPrefixStep(u: seq<Row>, k: nat)
    requires k < |u|
    ensures ClickLines(u[..k + 1]) == ClickLines(u[..k]) + (if HasClick(u[k]) then [ClickLine(u[k])] else [])
  {
    assert u[..k + 1][..k] == u[..k];
  }

  /** The positions of the clickable rows among `u`, in increasing order. */
  function ClickableIndices(u: seq<Row>): seq<nat> {
    if u == [] then []
    else ClickableIndices(u[..|u| - 1]) + (if HasClick(u[|u| - 1]) then [|u| - 1] else [])
  }

  /** Every recorded position is that of a clickable row. */
  lemma {:induction false} ClickableIndicesValid(u: seq<Row>)
    ensures forall j :: 0 <= j < |ClickableIndices(u)| ==>
      ClickableIndices(u)[j] < |u| && HasClick(u[ClickableIndices(u)[j]])
  {
    if u != [] {
      var n := |u| - 1;
      var front := u[..n];
      ClickableIndicesValid(front);
      var prev := ClickableIndices(front);
      assert ClickableIndices(u) == prev + (if HasClick(u[n]) then [n] else []);
      forall j | 0 <= j < |prev| ensures u[prev[j]] == front[prev[j]] {
      }
    }
  }

  /** The positions are strictly increasing, so each row is recorded at most once
      and in input order. */
  lemma {:induction false} ClickableIndicesIncreasing(u: seq<Row>)
    ensures forall i, j :: 0 <= i < j < |ClickableIndices(u)| ==> ClickableIndices(u)[i] < ClickableIndices(u)[j]
  {
    if u != [] {
      var n := |u| - 1;
      var front := u[..n];
      ClickableIndicesIncreasing(front);
      ClickableIndicesValid(front);
      assert ClickableIndices(u) == ClickableIndices(front) + (if HasClick(u[n]) then [n] else []);
    }
  }

  /** Every clickable row's position is recorded. */
  lemma {:induction false} ClickableIndicesComplete(u: seq<Row>)
    ensures forall k :: 0 <= k < |u| && HasClick(u[k]) ==> k in ClickableIndices(u)
  {
    if u != [] {
      var n := |u| - 1;
      var front := u[..n];
      ClickableIndicesComplete(front);
      var prev := ClickableIndices(front);
      var extra := if HasClick(u[n]) then [n] else [];
      assert ClickableIndices(u) == prev + extra;
      forall k | 0 <= k < |u| && HasClick(u[k]) ensures k in prev + extra {
        if k < n {
          assert front[k] == u[k];
          assert k in prev;
        } else {
          assert k in extra;
        }
      }
    }
  }

  /** The click lines, one by one: line j is the click line of the j-th clickable
      row, so every clickable row gets exactly one line, in input order, and no
      other row gets one. */
  lemma {:induction false} ClickLinesInOrder(u: seq<Row>)
    ensures |ClickLines(u)| == |ClickableIndices(u)|
    ensures forall j :: 0 <= j < |ClickLines(u)| ==>
      ClickableIndices(u)[j] < |u| && ClickLines(u)[j] == ClickLine(u[ClickableIndices(u)[j]])
  {
    if u != [] {
      var n := |u| - 1;
      var front := u[..n];
      ClickLinesInOrder(front);
      ClickableIndicesValid(front);
      var lines := ClickLines(front);
      var idx := ClickableIndices(front);
      assert ClickLines(u) == lines + (if HasClick(u[n]) then [ClickLine(u[n])] else []);
      assert ClickableIndices(u) == idx + (if HasClick(u[n]) then [n] else []);
      forall j | 0 <= j < |lines| ensures u[idx[j]] == front[idx[j]] {
      }
    }
  }

  /** The click lines of `u` are the click lines of its clickable rows and no
      others, and there are no more of them than rows. */
  lemma {:induction false} ClickLinesExactlyClickable(u: seq<Row>)
    ensures |ClickLines(u)| <= |u|
    ensures forall line :: line in ClickLines(u) <==>
      exists k :: 0 <= k < |u| && HasClick(u[k]) && line == ClickLine(u[k])
  {
    if u != [] {
      var n := |u| - 1;
      var front := u[..n];
      var last := u[n];
      ClickLinesExactlyClickable(front);
      var extra := if HasClick(last) then [ClickLine(last)] else [];
      assert ClickLines(u) == ClickLines(front) + extra;
      forall line | line in ClickLines(u)
        ensures exists k :: 0 <= k < |u| && HasClick(u[k]) && line == ClickLine(u[k])
      {
        if line in ClickLines(front) {
          var k :| 0 <= k < |front| && HasClick(front[k]) && line == ClickLine(front[k]);
          assert u[k] == front[k];
        } else {
          assert line in extra;
          assert HasClick(u[n]) && line == ClickLine(u[n]);
        }
      }
      forall line | exists k :: 0 <= k < |u| && HasClick(u[k]) && line == ClickLine(u[k])
        ensures line in ClickLines(u)
      {
        var k :| 0 <= k < |u| && HasClick(u[k]) && line == ClickLine(u[k]);
        if k < n {
          assert front[k] == u[k];
          assert line in ClickLines(front);
        } else {
          assert line in extra;
        }
      }
    }
  }

  /** The whole output, line by line. */
  function MermaidLines(rows: seq<Row>, theme: string, style: ConnectorStyle): seq<string> {
    [InitDirective(theme), DefaultDirection] + EdgeLines(rows, style)
    + ["", ClickComment] + ClickLines(DropDuplicateFromIds(rows))
  }

  /** The text `df_to_mermaid(df, theme)` returns. */
  function MermaidText(rows: seq<Row>, theme: string, style: ConnectorStyle): string {
    JoinLines(MermaidLines(rows, theme, style))
  }

  lemma JoinTwoLines(a: string, b: string)
    ensures JoinLines([a, b]) == a + "\n" + b + "\n"
  {
    assert [a, b][1..] == [b];
    assert JoinLines([b]) == b + "\n" + JoinLines([]);
  }

  /** The text before the first edge line: the directive and the header. */
  lemma HeaderText(theme: string, rows: seq<Row>, style: ConnectorStyle)
    ensures JoinLines([InitDirective(theme), DefaultDirection] + EdgeLines(rows[..0], style))
      == InitDirective(theme) + "\n" + DefaultDirection + "\n"
  {
    assert [InitDirective(theme), DefaultDirection] + EdgeLines(rows[..0], style)
      == [InitDirective(theme), DefaultDirection];
    JoinTwoLines(InitDirective(theme), DefaultDirection);
  }

  /** Writing one more edge line appends it, with its newline, to the text. */
  lemma EdgeTextStep(head: seq<string>, rows: seq<Row>, i: nat, style: ConnectorStyle)
    requires i < |rows|
    ensures JoinLines(head + EdgeLines(rows[..i + 1], style))
      == JoinLines(head + EdgeLines(rows[..i], style)) + EdgeLine(rows[i], style) + "\n"
  {
    EdgeLinesPrefixStep(rows, i, style);
    JoinLinesPush(head, EdgeLines(rows[..i], style), EdgeLine(rows[i], style));
  }

  /** After the edge lines come a blank line and the comment. */
  lemma CommentText(theme: string, rows: seq<Row>, style: ConnectorStyle, u: seq<Row>)
    ensures JoinLines([InitDirective(theme), DefaultDirection] + EdgeLines(rows, style)
                      + ["", ClickComment] + ClickLines(u[..0]))
      == JoinLines([InitDirective(theme), DefaultDirection] + EdgeLines(rows[..|rows|], style))
         + "\n" + ClickComment + "\n"
  {
    var edges := [InitDirective(theme), DefaultDirection] + EdgeLines(rows, style);
    assert rows[..|rows|] == rows;
    assert edges + ["", ClickComment] + ClickLines(u[..0]) == edges + [""] + [ClickComment];
    JoinLinesSnoc(edges, "");
    JoinLinesSnoc(edges + [""], ClickComment);
    assert JoinLines(edges) + "" == JoinLines(edges);
  }

  /** Considering one more candidate row appends its click line, if it has one. */
  lemma ClickTextStep(body: seq<string>, u: seq<Row>, k: nat)
    requires k < |u|
    ensures HasClick(u[k]) ==>
      JoinLines(body + ClickLines(u[..k + 1])) == JoinLines(body + ClickLines(u[..k])) + ClickLine(u[k]) + "\n"
    ensures !HasClick(u[k]) ==>
      JoinLines(body + ClickLines(u[..k + 1])) == JoinLines(body + ClickLines(u[..k]))
  {
    ClickLinesPrefixStep(u, k);
    if HasClick(u[k]) {
      JoinLinesPush(body, ClickLines(u[..k]), ClickLine(u[k]));
    } else {
      assert ClickLines(u[..k + 1]) == ClickLines(u[..k]);
    }
  }

  /** Once every candidate row has been considered, the text is complete. */
  lemma ClosingText(theme: string, rows: seq<Row>, style: ConnectorStyle)
    ensures JoinLines([InitDirective(theme), DefaultDirection] + EdgeLines(rows, style)
                      + ["", ClickComment]
                      + ClickLines(DropDuplicateFromIds(rows)[..|DropDuplicateFromIds(rows)|]))
      == MermaidText(rows, theme, style)
  {
    var u := DropDuplicateFromIds(rows);
    assert u[..|u|] == u;
  }

  /** The output opens with the theme directive (the theme inserted verbatim)
      and the `flowchart TD` header; then come the edge lines, a blank line, the
      comment, and the click lines, in that order. */
  lemma MermaidTextSections(rows: seq<Row>, theme: string, style: ConnectorStyle)
    ensures MermaidText(rows, theme, style)
      == (InitDirective(theme) + "\n" + DefaultDirection + "\n")
         + JoinLines(EdgeLines(rows, style))
         + ("\n" + ClickComment + "\n")
         + JoinLines(ClickLines(DropDuplicateFromIds(rows)))
  {
    var edges := EdgeLines(rows, style);
    var clicks := ClickLines(DropDuplicateFromIds(rows));
    var head := [InitDirective(theme), DefaultDirection];
    var tail := ["", ClickComment];
    assert MermaidLines(rows, theme, style) == head + edges + tail + clicks;
    JoinLinesAppend(head + edges + tail, clicks);
    JoinLinesAppend(head + edges, tail);
    JoinLinesAppend(head, edges);
    JoinTwoLines(InitDirective(theme), DefaultDirection);
    JoinTwoLines("", ClickComment);
    assert "" + "\n" + ClickComment + "\n" == "\n" + ClickComment + "\n";
  }

  /** Click lines come from first rows only: every distinct raw identifier whose
      first row is clickable gets a click line, every click line belongs to such
      a row, and there are no more click lines than distinct identifiers. */
  lemma ClickLinesForFirstRows(rows: seq<Row>)
    ensures |ClickLines(DropDuplicateFromIds(rows))| <= |FromIds(rows)| <= |rows|
    ensures forall i :: 0 <= i < |rows| && IsFirstOf(rows, i) && HasClick(rows[i]) ==>
      ClickLine(rows[i]) in ClickLines(DropDuplicateFromIds(rows))
    ensures forall line :: line in ClickLines(DropDuplicateFromIds(rows)) ==>
      exists i :: 0 <= i < |rows| && IsFirstOf(rows, i) && HasClick(rows[i]) && line == ClickLine(rows[i])
  {
    var u := DropDuplicateFromIds(rows);
    DropDuplicatesKeepsFirstSeen(rows);
    FirstOccurrencesComplete(rows, |rows|);
    FirstOccurrencesSound(rows, |rows|);
    DropDuplicatesCover(rows);
    DropDuplicatesDistinct(rows);
    ClickLinesExactlyClickable(u);
    forall i | 0 <= i < |rows| && IsFirstOf(rows, i) && HasClick(rows[i])
      ensures ClickLine(rows[i]) in ClickLines(u)
    {
      var k :| 0 <= k < |u| && u[k] == rows[i];
    }
    forall line | line in ClickLines(u)
      ensures exists i :: 0 <= i < |rows| && IsFirstOf(rows, i) && HasClick(rows[i]) && line == ClickLine(rows[i])
    {
      var k :| 0 <= k < |u| && HasClick(u[k]) && line == ClickLine(u[k]);
      assert u[k] in u;
    }
  }

  /** No newline in any cell the output shows. */
  predicate RowNewlineFree(r: Row) {
    && '\n' !in r.fromId && '\n' !in r.fromLabel && '\n' !in r.toId && '\n' !in r.toLabel
    && '\n' !in r.connector && '\n' !in ClickUrl(r) && '\n' !in ClickTip(r)
  }

  lemma EdgeLineNewlineFree(r: Row, style: ConnectorStyle)
    requires RowNewlineFree(r)
    ensures '\n' !in EdgeLine(r, style)
  {
    if '\n' in Trim(r.fromId) { TrimKeepsCharacters(r.fromId, '\n'); }
    if '\n' in Trim(r.toId) { TrimKeepsCharacters(r.toId, '\n'); }
    if '\n' in Trim(r.connector) { TrimKeepsCharacters(r.connector, '\n'); }
    EscapeQuotesKeepsCharacters(r.fromLabel, '\n');
    EscapeQuotesKeepsCharacters(r.toLabel, '\n');
  }

  lemma ClickLineNewlineFree(r: Row)
    requires RowNewlineFree(r)
    ensures '\n' !in ClickLine(r)
  {
    if '\n' in Trim(r.fromId) { TrimKeepsCharacters(r.fromId, '\n'); }
    EscapeQuotesKeepsCharacters(ClickTip(r), '\n');
  }

  predicate LinesNewlineFree(lines: seq<string>) {
    forall i :: 0 <= i < |lines| ==> '\n' !in lines[i]
  }

  lemma LinesNewlineFreeAppend(a: seq<string>, b: seq<string>)
    requires LinesNewlineFree(a) && LinesNewlineFree(b)
    ensures LinesNewlineFree(a + b)
  {
    forall i | 0 <= i < |a + b| ensures '\n' !in (a + b)[i] {
      if i >= |a| {
        assert (a + b)[i] == b[i - |a|];
      }
    }
  }

  lemma EdgeLinesNewlineFree(rows: seq<Row>, style: ConnectorStyle)
    requires forall i :: 0 <= i < |rows| ==> RowNewlineFree(rows[i])
    ensures LinesNewlineFree(EdgeLines(rows, style))
  {
    EdgeLinesInOrder(rows, style);
    forall i | 0 <= i < |rows| ensures '\n' !in EdgeLines(rows, style)[i] {
      EdgeLineNewlineFree(rows[i], style);
    }
  }

  lemma ClickLinesNewlineFree(rows: seq<Row>)
    requires forall i :: 0 <= i < |rows| ==> RowNewlineFree(rows[i])
    ensures LinesNewlineFree(ClickLines(DropDuplicateFromIds(rows)))
  {
    var u := DropDuplicateFromIds(rows);
    var clicks := ClickLines(u);
    ClickLinesExactlyClickable(u);
    DropDuplicatesKeepsFirstSeen(rows);
    FirstOccurrencesSound(rows, |rows|);
    forall i | 0 <= i < |clicks| ensures '\n' !in clicks[i] {
      assert clicks[i] in clicks;
      var k :| 0 <= k < |u| && HasClick(u[k]) && clicks[i] == ClickLine(u[k]);
      assert u[k] in u;
      ClickLineNewlineFree(u[k]);
    }
  }

  lemma HeaderLinesNewlineFree(theme: string)
    requires '\n' !in theme
    ensures LinesNewlineFree([InitDirective(theme), DefaultDirection])
    ensures LinesNewlineFree(["", ClickComment])
  {
    InitDirectiveNewlineFree(theme);
    assert '\n' !in DefaultDirection;
    ClickCommentNewlineFree();
  }

  lemma InitDirectiveNewlineFree(theme: string)
    requires '\n' !in theme
    ensures '\n' !in InitDirective(theme)
  {
    var a, b := "%%{init: {'theme': '", "'}}%%";
    assert '\n' !in a && '\n' !in b;
    assert InitDirective(theme) == a + theme + b;
  }

  lemma ClickCommentNewlineFree()
    ensures '\n' !in ClickComment
  {
    assert '\n' !in "    %% " && '\n' !in "Interactive ";
    assert '\n' !in "Elements " && '\n' !in "(Tooltips & Links)";
  }

  /** When no cell holds a newline, the text reads back as exactly the lines of
      the model: 2 header lines, one line per row, a blank line, the comment, and
      the click lines. */
  lemma MermaidLineStructure(rows: seq<Row>, theme: string, style: ConnectorStyle)
    requires '\n' !in theme
    requires forall i :: 0 <= i < |rows| ==> RowNewlineFree(rows[i])
    ensures SplitLines(MermaidText(rows, theme, style)) == MermaidLines(rows, theme, style)
    ensures |MermaidLines(rows, theme, style)|
      == 4 + |rows| + |ClickLines(DropDuplicateFromIds(rows))|
  {
    var edges := EdgeLines(rows, style);
    var clicks := ClickLines(DropDuplicateFromIds(rows));
    var head := [InitDirective(theme), DefaultDirection];
    var tail := ["", ClickComment];
    assert MermaidLines(rows, theme, style) == head + edges + tail + clicks;
    EdgeLinesInOrder(rows, style);
    EdgeLinesNewlineFree(rows, style);
    ClickLinesNewlineFree(rows);
    HeaderLinesNewlineFree(theme);
    LinesNewlineFreeAppend(head, edges);
    LinesNewlineFreeAppend(head + edges, tail);
    LinesNewlineFreeAppend(head + edges + tail, clicks);
    SplitJoinLines(head + edges + tail + clicks);
  }

  /** The two compilers agree on every table whose connectors all strip to `-->`. */
  lemma {:induction false} ArrowConnectorsAgree(rows: seq<Row>, theme: string)
    requires forall i :: 0 <= i < |rows| ==> Trim(rows[i].connector) == "-->"
    ensures MermaidText(rows, theme, RowConnector) == MermaidText(rows, theme, FixedArrow)
  {
    EdgeLinesInOrder(rows, RowConnector);
    EdgeLinesInOrder(rows, FixedArrow);
    assert EdgeLines(rows, RowConnector) == EdgeLines(rows, FixedArrow);
  }
}
