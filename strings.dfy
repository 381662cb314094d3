/** The Python string operations the flowchart compiler relies on: `str.strip()`,
    `str.replace('"', '\\"')`, `str.replace(old, new, 1)` and building text out of
    newline-terminated lines. */
module Strings {

  /** Python's `str.isspace()` for one character: the ASCII controls 0x09-0x0D and
      0x1C-0x1F, the space, and the Unicode space separators. */
  predicate IsSpace(c: char) {
    || ('\U{9}' <= c <= '\U{D}')
    || ('\U{1C}' <= c <= '\U{20}')
    || c == '\U{85}' || c == '\U{A0}' || c == '\U{1680}'
    || ('\U{2000}' <= c <= '\U{200A}')
    || c == '\U{2028}' || c == '\U{2029}' || c == '\U{202F}' || c == '\U{205F}'
    || c == '\U{3000}'
  }

  predicate AllSpace(s: string) {
    forall i :: 0 <= i < |s| ==> IsSpace(s[i])
  }

  /** Drops the leading whitespace. */
  function TrimStart(s: string): string {
    if s != [] && IsSpace(s[0]) then TrimStart(s[1..]) else s
  }

  /** Drops the trailing whitespace. */
  function TrimEnd(s: string): string {
    if s != [] && IsSpace(s[|s| - 1]) then TrimEnd(s[..|s| - 1]) else s
  }

  /** Python's `s.strip()`. */
  function Trim(s: string): string {
    TrimEnd(TrimStart(s))
  }

  /** `TrimStart` keeps the suffix of `s` that starts at its first non-space
      character. */
  lemma {:induction false} TrimStartSuffix(s: string)
    ensures |TrimStart(s)| <= |s| && TrimStart(s) == s[|s| - |TrimStart(s)|..]
    ensures AllSpace(s[..|s| - |TrimStart(s)|])
    ensures TrimStart(s) == [] || !IsSpace(TrimStart(s)[0])
  {
    if s != [] && IsSpace(s[0]) {
      TrimStartSuffix(s[1..]);
      var k := |s| - |TrimStart(s)|;
      assert s[..k] == [s[0]] + s[1..][..k - 1];
    }
  }

  /** `TrimEnd` keeps the prefix of `s` that ends at its last non-space
      character. */
  lemma {:induction false} TrimEndPrefix(s: string)
    ensures |TrimEnd(s)| <= |s| && TrimEnd(s) == s[..|TrimEnd(s)|]
    ensures AllSpace(s[|TrimEnd(s)|..])
    ensures TrimEnd(s) == [] || !IsSpace(TrimEnd(s)[|TrimEnd(s)| - 1])
  {
    if s != [] && IsSpace(s[|s| - 1]) {
      var t := s[..|s| - 1];
      TrimEndPrefix(t);
      var k := |TrimEnd(s)|;
      assert s[k..] == t[k..] + [s[|s| - 1]];
      assert t[..k] == s[..k];
    }
  }

  /** `strip()` returns a slice of `s` with only whitespace around it in `s` and
      no whitespace at either of its own ends. */
  lemma TrimSlice(s: string) returns (a: nat)
    ensures a + |Trim(s)| <= |s| && Trim(s) == s[a..a + |Trim(s)|]
    ensures AllSpace(s[..a]) && AllSpace(s[a + |Trim(s)|..])
    ensures Trim(s) == [] || (!IsSpace(Trim(s)[0]) && !IsSpace(Trim(s)[|Trim(s)| - 1]))
  {
    var t := TrimStart(s);
    var r := Trim(s);
    TrimStartSuffix(s);
    TrimEndPrefix(t);
    a := |s| - |t|;
    assert t == s[a..];
    assert t[|r|..] == s[a + |r|..];
    assert r == t[..|r|];
    if r != [] {
      assert r[0] == t[0];
    }
  }

  /** Stripping keeps only characters that were there. */
  lemma TrimKeepsCharacters(s: string, c: char)
    requires c in Trim(s)
    ensures c in s
  {
    var a := TrimSlice(s);
    var r := Trim(s);
    var k :| 0 <= k < |r| && r[k] == c;
    assert s[a + k] == c;
  }

  /** Stripping twice is stripping once. */
  lemma TrimIdempotent(s: string)
    ensures Trim(Trim(s)) == Trim(s)
  {
    var r := Trim(s);
    var _ := TrimSlice(s);
    assert TrimStart(r) == r;
  }

  /** `s.replace('"', '\\"')`: every double quote gets a backslash in front of it. */
  function EscapeQuotes(s: string): string {
    if s == [] then []
    else (if s[0] == '"' then "\\\"" else [s[0]]) + EscapeQuotes(s[1..])
  }

  /** The escaped text is longer than `s` by the number of quotes in `s`. */
  lemma {:induction false} EscapeQuotesLength(s: string)
    ensures |EscapeQuotes(s)| == |s| + multiset(s)['"']
  {
    if s != [] {
      EscapeQuotesLength(s[1..]);
      assert s == [s[0]] + s[1..];
      assert multiset(s) == multiset([s[0]]) + multiset(s[1..]);
    }
  }

  /** Every quote of the escaped text has a backslash just before it. */
  lemma {:induction false} EscapeQuotesGuardsQuotes(s: string)
    ensures EscapeQuotes(s) == [] || EscapeQuotes(s)[0] != '"'
    ensures forall i, j :: 0 <= i && j == i + 1 && j < |EscapeQuotes(s)| && EscapeQuotes(s)[j] == '"' ==>
      EscapeQuotes(s)[i] == '\\'
  {
    if s != [] {
      var head := if s[0] == '"' then "\\\"" else [s[0]];
      var rest := EscapeQuotes(s[1..]);
      EscapeQuotesGuardsQuotes(s[1..]);
      var r := head + rest;
      assert EscapeQuotes(s) == r;
      forall i, j | 0 <= i && j == i + 1 && j < |r| && r[j] == '"' ensures r[i] == '\\' {
        if j > |head| {
          assert r[j] == rest[j - |head|] && r[i] == rest[i - |head|];
        }
      }
    }
  }

  /** Backslashes are not escaped: a backslash of the input stays single, so in
      the escaped text a quote can follow a backslash that came from the input. */
  lemma EscapeQuotesKeepsBackslash()
    ensures EscapeQuotes("x\\\"y") == "x\\\\\"y"
  {
    assert EscapeQuotes("y") == "y";
    assert EscapeQuotes("\"y") == "\\\"y";
    assert EscapeQuotes("\\\"y") == "\\\\\"y";
  }

  /** Removes the backslash of every `\"` pair, scanning left to right. */
  function Unescape(s: string): string {
    if |s| >= 2 && s[0] == '\\' && s[1] == '"' then ['"'] + Unescape(s[2..])
    else if s == [] then []
    else [s[0]] + Unescape(s[1..])
  }

  /** Escaping is undone by removing the inserted backslashes, so two different
      labels never escape to the same text. */
  lemma {:induction false} UnescapeEscapeQuotes(s: string)
    ensures Unescape(EscapeQuotes(s)) == s
  {
    if s != [] {
      var rest := EscapeQuotes(s[1..]);
      UnescapeEscapeQuotes(s[1..]);
      if s[0] == '"' {
        var e := "\\\"" + rest;
        assert EscapeQuotes(s) == e;
        assert e[2..] == rest;
      } else {
        var e := [s[0]] + rest;
        assert EscapeQuotes(s) == e;
        EscapeQuotesGuardsQuotes(s[1..]);
        assert e[1..] == rest;
      }
    }
  }

  /** Escaping inserts only backslashes: a character other than `\` occurs in the
      escaped text exactly when it occurs in the original. */
  lemma {:induction false} EscapeQuotesKeepsCharacters(s: string, c: char)
    requires c != '\\'
    ensures c in EscapeQuotes(s) <==> c in s
  {
    if s != [] {
      EscapeQuotesKeepsCharacters(s[1..], c);
      var head := if s[0] == '"' then "\\\"" else [s[0]];
      assert EscapeQuotes(s) == head + EscapeQuotes(s[1..]);
      assert s == [s[0]] + s[1..];
    }
  }

  predicate OccursAt(s: string, pat: string, i: int) {
    0 <= i && i + |pat| <= |s| && s[i..i + |pat|] == pat
  }

  /** `s.replace(pat, rep, 1)` for a non-empty `pat`: the leftmost occurrence is
      replaced, the text is returned as it is when there is none. */
  function ReplaceFirst(s: string, pat: string, rep: string): string
    requires pat != []
    decreases |s|
  {
    if |s| < |pat| then s
    else if OccursAt(s, pat, 0) then rep + s[|pat|..]
    else [s[0]] + ReplaceFirst(s[1..], pat, rep)
  }

  /** Occurrences in the tail of `s` are the occurrences in `s` moved one place left. */
  lemma OccursAtTail(s: string, pat: string, j: int)
    requires s != [] && 0 <= j
    ensures OccursAt(s[1..], pat, j) <==> OccursAt(s, pat, j + 1)
  {
    if 0 <= j && j + |pat| <= |s| - 1 {
      assert s[1..][j..j + |pat|] == s[j + 1..j + 1 + |pat|];
    }
  }

  /** Without an occurrence of `pat`, `replace(pat, rep, 1)` changes nothing. */
  lemma {:induction false} ReplaceFirstAbsent(s: string, pat: string, rep: string)
    requires pat != []
    requires forall i :: !OccursAt(s, pat, i)
    ensures ReplaceFirst(s, pat, rep) == s
  {
    if |s| >= |pat| {
      assert !OccursAt(s, pat, 0);
      forall i ensures !OccursAt(s[1..], pat, i) {
        if 0 <= i {
          OccursAtTail(s, pat, i);
        }
      }
      ReplaceFirstAbsent(s[1..], pat, rep);
      assert s == [s[0]] + s[1..];
    }
  }

  /** Splicing into the tail of `s` and putting back its first character is
      splicing into `s` one place further right. */
  lemma SpliceCons(s: string, a: nat, b: nat, rep: string)
    requires 0 < |s| && a <= b <= |s| - 1
    ensures [s[0]] + (s[1..][..a] + rep + s[1..][b..]) == s[..a + 1] + rep + s[b + 1..]
  {
    assert [s[0]] + s[1..][..a] == s[..a + 1];
    assert s[1..][b..] == s[b + 1..];
  }

  /** Before the first occurrence, replacing in `s` is keeping its first character
      and replacing in the rest. */
  lemma ReplaceFirstShift(s: string, pat: string, rep: string, i: nat)
    requires pat != [] && 0 < i
    requires OccursAt(s, pat, i)
    requires forall j :: 0 <= j < i ==> !OccursAt(s, pat, j)
    ensures ReplaceFirst(s, pat, rep) == [s[0]] + ReplaceFirst(s[1..], pat, rep)
    ensures OccursAt(s[1..], pat, i - 1)
    ensures forall j :: 0 <= j < i - 1 ==> !OccursAt(s[1..], pat, j)
  {
    assert !OccursAt(s, pat, 0);
    OccursAtTail(s, pat, i - 1);
    forall j | 0 <= j < i - 1 ensures !OccursAt(s[1..], pat, j) {
      OccursAtTail(s, pat, j);
    }
  }

  /** When the leftmost occurrence of `pat` starts at `i`, exactly that occurrence
      is replaced and the text before and after it is kept. */
  lemma {:induction false} ReplaceFirstAt(s: string, pat: string, rep: string, i: nat)
    requires pat != []
    requires OccursAt(s, pat, i)
    requires forall j :: 0 <= j < i ==> !OccursAt(s, pat, j)
    ensures ReplaceFirst(s, pat, rep) == s[..i] + rep + s[i + |pat|..]
  {
    if i > 0 {
      ReplaceFirstShift(s, pat, rep, i);
      ReplaceFirstAt(s[1..], pat, rep, i - 1);
      SpliceCons(s, i - 1, i - 1 + |pat|, rep);
    }
  }

  /** The text made of `lines`, each followed by a newline. */
  function JoinLines(lines: seq<string>): string {
    if lines == [] then "" else lines[0] + "\n" + JoinLines(lines[1..])
  }

  lemma {:induction false} JoinLinesAppend(a: seq<string>, b: seq<string>)
    ensures JoinLines(a + b) == JoinLines(a) + JoinLines(b)
  {
    if a != [] {
      assert (a + b)[0] == a[0];
      assert (a + b)[1..] == a[1..] + b;
      JoinLinesAppend(a[1..], b);
    } else {
      assert a + b == b;
    }
  }

  lemma JoinLinesSnoc(lines: seq<string>, line: string)
    ensures JoinLines(lines + [line]) == JoinLines(lines) + line + "\n"
  {
    JoinLinesAppend(lines, [line]);
    assert [line][1..] == [];
  }

  /** Adding one more line after a fixed prefix appends that line and its newline. */
  lemma JoinLinesPush(pre: seq<string>, xs: seq<string>, line: string)
    ensures JoinLines(pre + (xs + [line])) == JoinLines(pre + xs) + line + "\n"
  {
    assert pre + (xs + [line]) == (pre + xs) + [line];
    JoinLinesSnoc(pre + xs, line);
  }

  /** Index of the first newline of `s`, or `|s|` when there is none. */
  function LineEnd(s: string): (k: nat)
    ensures k <= |s| && '\n' !in s[..k] && (k < |s| ==> s[k] == '\n')
  {
    if s == [] || s[0] == '\n' then 0
    else
      var k := LineEnd(s[1..]);
      assert s[..k + 1] == [s[0]] + s[1..][..k];
      k + 1
  }

  /** Cuts text into its newline-terminated lines (a last line without a newline
      is kept as well). */
  function SplitLines(s: string): seq<string>
    decreases |s|
  {
    if s == [] then []
    else
      var k := LineEnd(s);
      [s[..k]] + (if k < |s| then SplitLines(s[k + 1..]) else [])
  }

  /** Joining lines that hold no newline and cutting the text again gives the
      same lines back. */
  lemma {:induction false} SplitJoinLines(lines: seq<string>)
    requires forall i :: 0 <= i < |lines| ==> '\n' !in lines[i]
    ensures SplitLines(JoinLines(lines)) == lines
  {
    if lines != [] {
      var s := JoinLines(lines);
      var l := lines[0];
      assert s == l + "\n" + JoinLines(lines[1..]);
      var k := LineEnd(s);
      assert s[|l|] == '\n';
      assert s[..|l|] == l;
      assert k == |l|;
      assert s[k + 1..] == JoinLines(lines[1..]);
      SplitJoinLines(lines[1..]);
      assert lines == [l] + lines[1..];
    }
  }
}
