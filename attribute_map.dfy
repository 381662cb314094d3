/** The lookup tables `build_url_map` and `build_note_map` fill so that a click on
    a node, reported by its identifier or by its label, can be resolved to a link
    or a note. Both are one fold over the rows, parameterised here by the column
    that supplies the value. */
module AttributeMap {
  import opened Strings
  import opened FlowTable

  /** The column a table carries: `URL` for the link table, `notes` for the note
      table. */
  datatype Column = UrlColumn | NotesColumn

  /** The row's value in `col`; a missing value is the empty string (there is no
      `#` placeholder here). */
  function AttrValue(r: Row, col: Column): string {
    match col
    case UrlColumn => r.url.GetOr("")
    case NotesColumn => r.notes.GetOr("")
  }

  /** The four keys a row offers, stripped, in the order they are inserted. */
  function RowKeys(r: Row): seq<string> {
    [Trim(r.fromId), Trim(r.toId), Trim(r.fromLabel), Trim(r.toLabel)]
  }

  /** The row inserts `key`: it is one of the row's keys and not empty. */
  predicate Mentions(r: Row, key: string) {
    key != "" && key in RowKeys(r)
  }

  /** The guard of one insertion: a non-empty key is set when it is new, or when
      it holds the empty string and the offered value is not empty. */
  predicate Takes(m: map<string, string>, key: string, v: string) {
    key != "" && (key !in m || (m[key] == "" && v != ""))
  }

  /** One guarded insertion. */
  function Offer(m: map<string, string>, key: string, v: string): map<string, string> {
    if Takes(m, key, v) then m[key := v] else m
  }

  /** The four insertions one row makes, all with the row's value. */
  function OfferRow(m: map<string, string>, r: Row, col: Column): map<string, string> {
    var v := AttrValue(r, col);
    var ks := RowKeys(r);
    Offer(Offer(Offer(Offer(m, ks[0], v), ks[1], v), ks[2], v), ks[3], v)
  }

  /** The table after folding `OfferRow` over the rows in order. */
  function AttrMap(rows: seq<Row>, col: Column): map<string, string> {
    if rows == [] then map[]
    else OfferRow(AttrMap(rows[..|rows| - 1], col), rows[|rows| - 1], col)
  }

  /** Folding one more row of the input applies that row's insertions. */
  lemma AttrMapPrefixStep(rows: seq<Row>, i: nat, col: Column)
    requires i < |rows|
    ensures AttrMap(rows[..i + 1], col) == OfferRow(AttrMap(rows[..i], col), rows[i], col)
  {
    assert rows[..i + 1][..i] == rows[..i];
  }

  /** Reference for the keys: non-empty and offered by some row. */
  predicate KeySeen(rows: seq<Row>, key: string) {
    exists i :: 0 <= i < |rows| && Mentions(rows[i], key)
  }

  /** Reference for the values: the first non-empty value among the rows that
      offer `key`, or the empty string when there is none. */
  function FirstNonEmpty(rows: seq<Row>, col: Column, key: string): string {
    if rows == [] then ""
    else if Mentions(rows[0], key) && AttrValue(rows[0], col) != "" then AttrValue(rows[0], col)
    else FirstNonEmpty(rows[1..], col, key)
  }

  lemma OfferEffect(m: map<string, string>, k: string, v: string, key: string)
    ensures key in Offer(m, k, v) <==> key in m || (key == k && k != "")
    ensures key in Offer(m, k, v) ==>
      Offer(m, k, v)[key] == if key == k && Takes(m, key, v) then v else m[key]
  {
  }

  /** What one row does to one key: the key appears when the row offers it, and
      its value changes only from empty to the row's non-empty value. */
  lemma OfferRowEffect(m: map<string, string>, r: Row, col: Column, key: string)
    ensures key in OfferRow(m, r, col) <==> key in m || Mentions(r, key)
    ensures key in OfferRow(m, r, col) ==>
      OfferRow(m, r, col)[key]
        == if Mentions(r, key) && Takes(m, key, AttrValue(r, col)) then AttrValue(r, col) else m[key]
  {
    var v := AttrValue(r, col);
    var ks := RowKeys(r);
    var m1 := Offer(m, ks[0], v);
    var m2 := Offer(m1, ks[1], v);
    var m3 := Offer(m2, ks[2], v);
    OfferEffect(m, ks[0], v, key);
    OfferEffect(m1, ks[1], v, key);
    OfferEffect(m2, ks[2], v, key);
    OfferEffect(m3, ks[3], v, key);
    assert OfferRow(m, r, col) == Offer(m3, ks[3], v);
    assert Mentions(r, key) <==> key != "" && (key == ks[0] || key == ks[1] || key == ks[2] || key == ks[3]);
  }

  /** A value found in the rows belongs to a row that offers the key. */
  lemma {:induction false} FirstNonEmptyOffered(rows: seq<Row>, col: Column, key: string)
    requires FirstNonEmpty(rows, col, key) != ""
    ensures exists i :: 0 <= i < |rows| && Mentions(rows[i], key)
  {
    if !(Mentions(rows[0], key) && AttrValue(rows[0], col) != "") {
      FirstNonEmptyOffered(rows[1..], col, key);
      var i :| 0 <= i < |rows| - 1 && Mentions(rows[1..][i], key);
      assert rows[i + 1] == rows[1..][i];
    }
  }

  /** Appending a row changes the first non-empty value only when there was none. */
  lemma {:induction false} FirstNonEmptySnoc(rows: seq<Row>, r: Row, col: Column, key: string)
    ensures FirstNonEmpty(rows + [r], col, key)
      == if FirstNonEmpty(rows, col, key) != "" then FirstNonEmpty(rows, col, key)
         else if Mentions(r, key) then AttrValue(r, col) else ""
  {
    if rows == [] {
      assert [] + [r] == [r];
      assert [r][1..] == [];
    } else {
      assert (rows + [r])[0] == rows[0];
      assert (rows + [r])[1..] == rows[1..] + [r];
      FirstNonEmptySnoc(rows[1..], r, col, key);
    }
  }

  lemma KeySeenSnoc(rows: seq<Row>, r: Row, key: string)
    ensures KeySeen(rows + [r], key) <==> KeySeen(rows, key) || Mentions(r, key)
  {
    var s := rows + [r];
    assert s[|rows|] == r;
    if KeySeen(s, key) && !Mentions(r, key) {
      var i :| 0 <= i < |s| && Mentions(s[i], key);
      assert s[i] == rows[i];
    }
    if KeySeen(rows, key) {
      var i :| 0 <= i < |rows| && Mentions(rows[i], key);
      assert s[i] == rows[i];
    }
  }

  /** The table built from the rows holds exactly the non-empty keys some row
      offers, and each key's value is the first non-empty value offered for it
      (the empty string when there is none): first non-empty wins, and `#` counts
      as non-empty. */
  lemma {:induction false} AttrMapCharacterized(rows: seq<Row>, col: Column, key: string)
    ensures key in AttrMap(rows, col) <==> KeySeen(rows, key)
    ensures key in AttrMap(rows, col) ==> AttrMap(rows, col)[key] == FirstNonEmpty(rows, col, key)
  {
    if rows != [] {
      var front := rows[..|rows| - 1];
      var r := rows[|rows| - 1];
      assert rows == front + [r];
      AttrMapCharacterized(front, col, key);
      KeySeenSnoc(front, r, key);
      FirstNonEmptySnoc(front, r, col, key);
      OfferRowEffect(AttrMap(front, col), r, col, key);
      if key !in AttrMap(front, col) && FirstNonEmpty(front, col, key) != "" {
        FirstNonEmptyOffered(front, col, key);
      }
    }
  }

  /** Looking a key up with `get(key, '')` gives the first non-empty value offered
      for it, whether or not the key is in the table. */
  lemma LookupIsFirstNonEmpty(rows: seq<Row>, col: Column, key: string)
    ensures (if key in AttrMap(rows, col) then AttrMap(rows, col)[key] else "")
      == FirstNonEmpty(rows, col, key)
  {
    AttrMapCharacterized(rows, col, key);
    if key !in AttrMap(rows, col) && FirstNonEmpty(rows, col, key) != "" {
      FirstNonEmptyOffered(rows, col, key);
    }
  }

  /** Once an entry is non-empty, no later row changes it. */
  lemma {:induction false} NonEmptyEntryStable(rows: seq<Row>, n: nat, col: Column, key: string)
    requires n <= |rows|
    requires key in AttrMap(rows[..n], col) && AttrMap(rows[..n], col)[key] != ""
    ensures key in AttrMap(rows, col) && AttrMap(rows, col)[key] == AttrMap(rows[..n], col)[key]
    decreases |rows| - n
  {
    if n == |rows| {
      assert rows[..n] == rows;
    } else {
      var front := rows[..|rows| - 1];
      assert front[..n] == rows[..n];
      NonEmptyEntryStable(front, n, col, key);
      var before := AttrMap(front, col);
      assert AttrMap(rows, col) == OfferRow(before, rows[|rows| - 1], col);
      OfferRowEffect(before, rows[|rows| - 1], col, key);
    }
  }
}
