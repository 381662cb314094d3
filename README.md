# Dataframe to Mermaid flowchart: a verified model

The Streamlit app turns a table of edges into Mermaid flowchart text. Each row
of the table carries these cells: `From_ID`, `From_Label`, `To_ID`, `To_Label`,
`Connector`, `Tooltip`, `URL` and `notes`. This project models the pure core
of the app in Dafny:

- the compiler `df_to_mermaid`, in two versions:
  - the interactive app's version, which takes each edge's connector from the
    row;
  - the earlier static version, which always draws `-->`;
- the two lookup tables `build_url_map` and `build_note_map`. They resolve a
  clicked node, reported by its identifier or its label, to a link or a note;
- the orientation rewrite. It replaces the first `flowchart TD\n` of the
  compiled text;
- the click handler. It picks the component's reported link or note, or falls
  back to the tables, and decides what is worth showing.

Modules:

- `Strings` (strings.dfy): the text operations these steps rely on.
  - `Trim` is Python's `str.strip()`, with Python's `isspace` character set.
  - `EscapeQuotes` is `.replace('"', '\\"')`. `Unescape` undoes it: `Unescape(EscapeQuotes(s)) == s`.
  - `ReplaceFirst` is `str.replace(old, new, 1)`.
  - `JoinLines` and `SplitLines` give the line structure of the output.
- `FlowTable` (flow_table.dfy): a row of the input table. Cells are strings.
  The optional cells `Tooltip`, `URL` and `notes` are `Option`s, where
  `None` stands for a missing or NaN value.
- `Mermaid` (mermaid.dfy): the specification of the compiled text, shared by
  both versions and parameterised by `ConnectorStyle`. It includes
  `drop_duplicates(subset=['From_ID'])` on the raw identifiers, and the
  lemmas about line order, click lines and line structure.
- `AttributeMap` (attribute_map.dfy): the specification of the lookup tables.
  It is a fold of guarded insertions over the rows, parameterised by the
  column that supplies the value. It comes with an independent
  characterisation: the first non-empty value any row offers for a key.
- `StreamlitApp` (streamlit_app.dfy): the interactive app.
  - `DfToMermaid` and `BuildAttrMap` are methods whose loops mirror the
    source. Each is proved equal to its specification function.
  - Also here: the orientation rewrite, and the click handlers of both
    diagrams.
- `V10App` (v10_app.dfy): the static version's `DfToMermaid`, with the fixed
  arrow.

Behaviour of the code as written, kept by the model:

- `drop_duplicates` runs on the raw `From_ID`, before any stripping. So
  `"A"` and `" A"` are two click candidates, and both print as `click A`.
- In the lookup tables, the placeholder `#` counts as a non-empty value. A
  later real URL therefore never replaces it, even though the click handler
  treats `#` as "no link". `StreamlitApp.SampleClickOnStart` shows this on
  the sample table: clicking `A` shows no link, and shows the note of the
  second row.
- Backslashes in labels and tooltips are not escaped. So a quote in the
  escaped text can follow a backslash that came from the input: `x\"y`
  becomes `x\\"y` (`Strings.EscapeQuotesKeepsBackslash`).
- On the sample table, the click line for `A` comes from the first row of
  `A`. That line is `click A "#" "Kickoff notes"`, and it is emitted because
  the tooltip is non-empty. A later row for `A` does not supply the URL.

## Model

| member | source | states |
|---|---|---|
| Strings.TrimSlice | code/streamlit_app.py:35-36 | `.strip()` yields a contiguous slice of its input; everything cut off on either side is whitespace, and the result neither starts nor ends with whitespace |
| Strings.TrimKeepsCharacters | code/streamlit_app.py:35-36 | stripping introduces no character that was not in the input |
| Strings.TrimIdempotent | code/streamlit_app.py:42 | stripping an already stripped string changes nothing |
| Strings.EscapeQuotesLength | code/streamlit_app.py:37-38 | the escaped label is as long as the input plus one per `"` it holds |
| Strings.EscapeQuotesGuardsQuotes | code/streamlit_app.py:37-38 | the escaped text does not start with `"`, and every `"` in it comes right after a backslash |
| Strings.UnescapeEscapeQuotes | code/streamlit_app.py:37-38 | removing the inserted backslashes gives back the original label (round trip) |
| Strings.EscapeQuotesKeepsCharacters | code/streamlit_app.py:61 | apart from the backslash, escaping neither adds nor removes any character, so a tooltip without newlines stays without newlines |
| Strings.ReplaceFirstAbsent | code/streamlit_app.py:215 | when the pattern occurs nowhere, `replace(old, new, 1)` returns the text unchanged |
| Strings.ReplaceFirstAt | code/streamlit_app.py:215 | when the first occurrence is at position i, the result is the text before i, then the replacement, then the text after that occurrence, unchanged |
| Strings.JoinLinesAppend | code/streamlit_app.py:28-29 | writing two groups of lines one after the other gives the text of the first group followed by the text of the second |
| Strings.SplitJoinLines | code/streamlit_app.py:45 | when no line holds a newline, splitting the newline-terminated text gives back exactly the lines that were written |
| Mermaid.EdgeLinesInOrder | code/streamlit_app.py:33-45 | there is exactly one edge line per row, duplicates included, in input order, and line i is row i's edge line |
| Mermaid.DropDuplicatesCover | code/streamlit_app.py:49 | the rows `drop_duplicates` keeps cover every raw identifier of the input, and there are no more of them than rows |
| Mermaid.DropDuplicatesDistinct | code/streamlit_app.py:49 | the kept rows have pairwise different raw identifiers, so there are exactly as many of them as distinct identifiers |
| Mermaid.FirstOccurrencesComplete | code/streamlit_app.py:49 | the reference keeps every row that is the first of its raw identifier |
| Mermaid.FirstOccurrencesSound | code/streamlit_app.py:49 | every row the reference keeps is the first of its raw identifier |
| Mermaid.DropDuplicatesKeepsFirstSeen | code/streamlit_app.py:49 | the kept rows are exactly the reference `FirstOccurrences`: the first row of each raw identifier, in input order |
| Mermaid.ClickableIndicesValid | code/streamlit_app.py:53-62 | every position the reference `ClickableIndices` records is that of a candidate whose URL (defaulting to `#`) is not `#` or whose unescaped tooltip (defaulting to empty) is not empty |
| Mermaid.ClickableIndicesIncreasing | code/streamlit_app.py:53 | the recorded positions strictly increase: each candidate at most once, in the order `iterrows` visits them |
| Mermaid.ClickableIndicesComplete | code/streamlit_app.py:59 | every candidate that passes the test `url != '#' or tip != ''` is recorded |
| Mermaid.ClickLinesInOrder | code/streamlit_app.py:53-62 | there are exactly as many click lines as clickable candidates, and line j is the click line of the j-th clickable candidate |
| Mermaid.ClickLinesExactlyClickable | code/streamlit_app.py:53-62 | a line is a click line if and only if it is the click line of a candidate whose URL is not `#` or whose tooltip is not empty; there are no more click lines than candidates |
| Mermaid.ClickLinesForFirstRows | code/v10_mermaid_streamlit_app.py:44-57 | every clickable first row of a raw identifier gets its click line, every click line comes from such a row, and there are no more click lines than distinct identifiers or rows |
| Mermaid.MermaidTextSections | code/streamlit_app.py:28-51 | the text is the init directive with the theme inserted verbatim, then `flowchart TD`, then the edge lines, then a blank line and the comment `    %% Interactive Elements (Tooltips & Links)`, then the click lines |
| Mermaid.MermaidLineStructure | code/v10_mermaid_streamlit_app.py:46-57 | when no cell holds a newline, the text reads back as 2 header lines, one line per row, a blank line, the comment line and the click lines: 4 + rows + clicks lines |
| Mermaid.ArrowConnectorsAgree | code/v10_mermaid_streamlit_app.py:32-40 | when every connector strips to `-->`, the static compiler and the row-connector compiler produce the same text |
| AttributeMap.OfferRowEffect | code/streamlit_app.py:94-107 | one row adds exactly its non-empty stripped identifiers and labels as keys; an entry's value changes only when it was empty and the row's value is not |
| AttributeMap.AttrMapCharacterized | code/streamlit_app.py:66-108 | the table's keys are exactly the non-empty stripped identifiers and labels of all rows, and each value is the first non-empty value any row offers for it, or empty when there is none; `#` counts as non-empty |
| AttributeMap.LookupIsFirstNonEmpty | code/streamlit_app.py:234 | `map.get(entity, '')` is the first non-empty value offered for the entity, whether or not the entity is a key |
| AttributeMap.NonEmptyEntryStable | code/streamlit_app.py:95-96 | once an entry is non-empty, no later row changes it |
| StreamlitApp.DfToMermaid | code/streamlit_app.py:24-64 | the text the loops build is the specified text with connectors taken from the rows |
| StreamlitApp.BuildAttrMap | code/streamlit_app.py:66-151 | the dictionary the loop builds (for `URL`, or for `notes`) holds exactly the keys some row offers, each with the first non-empty value offered for it |
| StreamlitApp.HeaderIsFirstOccurrence | code/streamlit_app.py:215 | for `OrientHeader`, the model of the rewrite: in text that opens with a one-line directive followed by `flowchart TD\n`, that header is the first occurrence of the pattern |
| StreamlitApp.OrientHeaderRewritesDirection | code/streamlit_app.py:212-218 | with an orientation code, the rewrite `OrientHeader` replaces exactly the header line by `flowchart <code>` and leaves every other line as it was |
| StreamlitApp.HandleClickFromRows | code/streamlit_app.py:230-254 | for `HandleClick`, the model of the click handler, with `Resolve` the fallback at :234-235: after a click, the link is the reported URL when non-empty, else the first non-empty URL offered for the entity; it is shown if and only if it is neither empty nor `#`; the same holds for notes |
| StreamlitApp.EditorClickShowsSameLink | code/streamlit_app.py:286-296 | the editor diagram's handler `HandleEditorClick` reacts to the same clicks and shows the same link as the first handler, without a note |
| StreamlitApp.SampleClickOnStart | code/streamlit_app.py:10-22 | on the sample table, clicking `A` shows no link, because the first row's `#` is kept over the later URL, and shows the note `Note B` |
| V10App.DfToMermaid | code/v10_mermaid_streamlit_app.py:24-59 | the text the loops build is the specified text with every edge drawn with `-->` |

## Left out

- The Streamlit user interface is not modelled: sidebar selectors, file upload, data previews, `st.info`/`st.markdown`/`st.write`, and the code editor text area. These are presentation calls to an outside framework. The chosen theme and orientation code become parameters.
- The session-state seeding of the editor buffer (`st.session_state`) is not modelled. It only assigns the compiled text.
- The rendering components `mermaid(...)` and `st_mermaid(...)` are not modelled. They are foreign code. Their reported click is the parameter `ClickEvent`, where `None` stands for a missing or null field.
- `pd.read_csv`, the CSV template download and `create_sample_data` are input/output or fixture data. `SampleRows` copies the sample table only as a concrete test vector.
- The `print` diagnostics are console output only, so they are not modelled.
- pandas internals are not reproduced.
  - Cells are strings. The source raises `AttributeError` when `From_ID`,
    `To_ID`, `From_Label`, `To_Label` or `Connector` is NaN, for example an
    empty CSV cell, because it calls `.strip()` or `.replace` on a float
    (code/streamlit_app.py:35-42). That error is not modelled.
  - `build_url_map` and `build_note_map` turn a NaN identifier or label into
    the key `nan`. That is not modelled either.
  - A NaN in `Tooltip`, `URL` or `notes` is `None`.
  - `str(NaN)` (the text `nan`) is not modelled.
  - The `try`/`except` around `str(...).strip()` never fires on string cells, so it is not modelled.
  - A missing column is not modelled.
- StreamlitApp.OrientHeaderRewritesDirection: stated only for a theme without a newline. A theme containing `flowchart TD\n` could otherwise hold an earlier occurrence. The general first-occurrence behaviour is `Strings.ReplaceFirstAt`/`Strings.ReplaceFirstAbsent`.
- Mermaid.MermaidLineStructure: stated only when no cell and no theme holds a newline. A cell with a newline splits its output line in two.
- The `isinstance(orientation_code, str)` guard and the `NameError` fallback at code/streamlit_app.py:214-218 are not modelled separately. The orientation is always a string here, and an empty code leaves the text unchanged.
