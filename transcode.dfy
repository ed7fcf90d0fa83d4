/** The text codec of `utils::transcode_text`: escaping of four control
    characters plus quoting (encode), and the reverse (decode). */
module Transcode {
  import opened Wrappers

  /** The escape table, walked in the key order of its `std::map`:
      tab (9) < newline (10) < carriage return (13) < double quote (34). */
  const Table: seq<(string, string)> :=
    [("\t", "\\t"), ("\n", "\\n"), ("\r", "\\r"), ("\"", "\\\"")]

  /** What one table row searches for, in the given direction. */
  function Pattern(row: (string, string), encode: bool): string
  {
    if encode then row.0 else row.1
  }

  /** What one table row writes in place of its pattern. */
  function Replacement(row: (string, string), encode: bool): string
  {
    if encode then row.1 else row.0
  }

  predicate MatchAt(s: string, pat: string, i: nat)
  {
    i + |pat| <= |s| && s[i..i + |pat|] == pat
  }

  /** `s.find(pat, from)`: the first occurrence of `pat` at or after `from`. */
  function Find(s: string, pat: string, from: nat): (r: Option<nat>)
    requires pat != []
    ensures r.Some? ==> from <= r.value && MatchAt(s, pat, r.value)
    ensures forall j :: from <= j && (r.None? || j < r.value) ==> !MatchAt(s, pat, j)
    decreases |s| - from
  {
    if from + |pat| > |s| then None
    else if MatchAt(s, pat, from) then Some(from)
    else Find(s, pat, from + 1)
  }

  /** Every occurrence of `pat`, taken left to right without overlap, replaced by `rep`. */
  function ReplaceAll(s: string, pat: string, rep: string): string
    requires pat != []
    decreases |s|
  {
    if |s| < |pat| then s
    else if MatchAt(s, pat, 0) then rep + ReplaceAll(s[|pat|..], pat, rep)
    else [s[0]] + ReplaceAll(s[1..], pat, rep)
  }

  ghost predicate RowsNonEmpty(rows: seq<(string, string)>)
  {
    forall i :: 0 <= i < |rows| ==> rows[i].0 != [] && rows[i].1 != []
  }

  /** The substitutions of all `rows`, one full pass per row, in order. */
  function Rewrite(s: string, rows: seq<(string, string)>, encode: bool): string
    requires RowsNonEmpty(rows)
    decreases |rows|
  {
    if rows == [] then s
    else Rewrite(ReplaceAll(s, Pattern(rows[0], encode), Replacement(rows[0], encode)), rows[1..], encode)
  }

  /** `to_raw_value` of a text: escaped, then wrapped in double quotes. */
  function EncodeText(s: string): string
  {
    "\"" + Rewrite(s, Table, true) + "\""
  }

  /** Removes one leading and then one trailing double quote, each only if
      present; a lone quote is removed once. */
  function StripQuotes(t: string): (r: string)
    ensures |t| <= 1 && t != "\"" ==> r == t
    ensures t == "\"" ==> r == []
    ensures |t| >= 2 && t[0] == '"' && t[|t| - 1] == '"' ==> r == t[1..|t| - 1]
    ensures |t| >= 2 && t[0] == '"' && t[|t| - 1] != '"' ==> r == t[1..]
    ensures |t| >= 2 && t[0] != '"' && t[|t| - 1] == '"' ==> r == t[..|t| - 1]
    ensures |t| >= 2 && t[0] != '"' && t[|t| - 1] != '"' ==> r == t
  {
    var u := if t != [] && t[0] == '"' then t[1..] else t;
    if u != [] && u[|u| - 1] == '"' then u[..|u| - 1] else u
  }

  /** `from_raw_value<std::string>`: escapes reversed, then the quotes stripped. */
  function DecodeText(raw: string): string
  {
    StripQuotes(Rewrite(raw, Table, false))
  }

  // ---------------------------------------------------------------------
  // The imperative transcoder, proved against EncodeText / DecodeText.
  // ---------------------------------------------------------------------

  /** A match in the tail `t[1..]` is a match in `t` one place later. */
  lemma MatchShift(t: string, pat: string, k: nat)
    requires t != []
    ensures MatchAt(t[1..], pat, k) == MatchAt(t, pat, k + 1)
  {
    if k + |pat| <= |t| - 1 {
      assert t[1..][k..k + |pat|] == t[k + 1..k + 1 + |pat|];
    }
  }

  /** Without a match in front, the first character is kept. */
  lemma ReplaceUnmatched(t: string, pat: string, rep: string)
    requires pat != [] && |pat| <= |t| && !MatchAt(t, pat, 0)
    ensures ReplaceAll(t, pat, rep) == [t[0]] + ReplaceAll(t[1..], pat, rep)
  {
  }

  lemma ConsSplit(t: string, m: nat)
    requires 1 <= m <= |t|
    ensures [t[0]] + t[1..][..m - 1] == t[..m]
    ensures t[1..][m - 1..] == t[m..]
  {
    assert ([t[0]] + t[1..][..m - 1]) == t[..m];
  }

  lemma ConcatAssoc(x: string, y: string, z: string)
    ensures x + (y + z) == (x + y) + z
  {
  }

  /** A prefix of `m` characters holding no match is kept unchanged. */
  lemma {:induction false} ReplaceSkip(t: string, pat: string, rep: string, m: nat)
    requires pat != [] && m <= |t|
    requires forall k :: 0 <= k < m ==> !MatchAt(t, pat, k)
    ensures ReplaceAll(t, pat, rep) == t[..m] + ReplaceAll(t[m..], pat, rep)
    decreases m
  {
    if m == 0 {
      assert t[..0] == [] && t[0..] == t;
    } else if |t| < |pat| {
      assert t[..m] + t[m..] == t;
    } else {
      forall k | 0 <= k < m - 1
        ensures !MatchAt(t[1..], pat, k)
      {
        MatchShift(t, pat, k);
      }
      ReplaceSkip(t[1..], pat, rep, m - 1);
      ReplaceUnmatched(t, pat, rep);
      ConsSplit(t, m);
      ConcatAssoc([t[0]], t[1..][..m - 1], ReplaceAll(t[m..], pat, rep));
    }
  }

  lemma RewriteEmpty(rows: seq<(string, string)>, encode: bool)
    requires RowsNonEmpty(rows)
    ensures Rewrite([], rows, encode) == []
    decreases |rows|
  {
    if rows != [] {
      RewriteEmpty(rows[1..], encode);
    }
  }

  lemma NoMatchInSuffix(text: string, pat: string, pos: nat, m: nat)
    requires pat != [] && pos <= |text|
    requires forall j :: pos <= j < pos + m ==> !MatchAt(text, pat, j)
    ensures forall k :: 0 <= k < m ==> !MatchAt(text[pos..], pat, k)
  {
    forall k | 0 <= k < m
      ensures !MatchAt(text[pos..], pat, k)
    {
      assert !MatchAt(text, pat, pos + k);
      if k + |pat| <= |text[pos..]| {
        assert text[pos..][k..k + |pat|] == text[pos + k..pos + k + |pat|];
      }
    }
  }

  /** Where the in-place loop stands at `pos`: the text before `pos` is
      final, the rest is still to be rewritten. */
  function Pending(text: string, pat: string, rep: string, pos: nat): string
    requires pat != [] && pos <= |text|
  {
    text[..pos] + ReplaceAll(text[pos..], pat, rep)
  }

  lemma PendingStart(text: string, pat: string, rep: string)
    requires pat != []
    ensures Pending(text, pat, rep, 0) == ReplaceAll(text, pat, rep)
  {
    assert text[..0] == [] && text[0..] == text;
  }

  lemma PendingEnd(text: string, pat: string, rep: string)
    requires pat != []
    ensures Pending(text, pat, rep, |text|) == text
  {
    assert text[..|text|] == text && text[|text|..] == [];
  }

  /** The rest of the text holds no further occurrence: it is kept as it is. */
  lemma ReplaceTailNone(text: string, pat: string, rep: string, pos: nat)
    requires pat != [] && pos <= |text|
    requires forall j :: pos <= j ==> !MatchAt(text, pat, j)
    ensures Pending(text, pat, rep, pos) == text
  {
    NoMatchInSuffix(text, pat, pos, |text| - pos);
    ReplaceSkip(text[pos..], pat, rep, |text| - pos);
    assert text[pos..][..|text| - pos] == text[pos..];
    assert text[pos..][|text| - pos..] == [];
    assert text[..pos] + text[pos..] == text;
  }

  /** The next occurrence is at `p`: everything before it is kept, it is replaced. */
  lemma ReplaceTailFound(text: string, pat: string, rep: string, pos: nat, p: nat)
    requires pat != [] && pos <= p && MatchAt(text, pat, p)
    requires forall j :: pos <= j < p ==> !MatchAt(text, pat, j)
    ensures text[..pos] + ReplaceAll(text[pos..], pat, rep)
         == (text[..p] + rep) + ReplaceAll(text[p + |pat|..], pat, rep)
  {
    var tail := text[pos..];
    var after := text[p..];
    var rest := text[p + |pat|..];
    NoMatchInSuffix(text, pat, pos, p - pos);
    ReplaceSkip(tail, pat, rep, p - pos);
    assert tail[p - pos..] == after;
    assert tail[..p - pos] == text[pos..p];
    assert after[..|pat|] == text[p..p + |pat|];
    assert after[|pat|..] == rest;
    ReplaceAtMatch(after, pat, rep);
    var x, y, z := text[..pos], text[pos..p], ReplaceAll(rest, pat, rep);
    assert ReplaceAll(tail, pat, rep) == y + (rep + z);
    assert x + y == text[..p];
    Associate(x, y, rep, z);
  }

  lemma Associate(x: string, y: string, r: string, z: string)
    ensures x + (y + (r + z)) == ((x + y) + r) + z
  {
  }

  lemma ReplaceAtMatch(s: string, pat: string, rep: string)
    requires pat != [] && MatchAt(s, pat, 0)
    ensures ReplaceAll(s, pat, rep) == rep + ReplaceAll(s[|pat|..], pat, rep)
  {
  }

  lemma SpliceSplit(text: string, rep: string, p: nat, size: nat)
    requires p + size <= |text|
    ensures var next := text[..p] + rep + text[p + size..];
      next[..p + |rep|] == text[..p] + rep && next[p + |rep|..] == text[p + size..]
  {
  }

  /** One replacement of the in-place loop moves it past the inserted text. */
  lemma ReplaceStep(text: string, pat: string, rep: string, pos: nat, p: nat)
    requires pat != [] && pos <= p && MatchAt(text, pat, p)
    requires forall j :: pos <= j < p ==> !MatchAt(text, pat, j)
    ensures Pending(text[..p] + rep + text[p + |pat|..], pat, rep, p + |rep|)
         == Pending(text, pat, rep, pos)
  {
    ReplaceTailFound(text, pat, rep, pos, p);
    SpliceSplit(text, rep, p, |pat|);
  }

  /** One table row applied in place, as the inner `while` of `transcode_text` does. */
  method ReplaceInPlace(text0: string, pat: string, rep: string) returns (text: string)
    requires text0 != [] && pat != [] && rep != []
    ensures text != []
    ensures text == ReplaceAll(text0, pat, rep)
  {
    text := text0;
    var size := |pat|;
    var pos: nat := 0;
    PendingStart(text0, pat, rep);
    while pos <= |text| - 1
      invariant text != [] && pos <= |text|
      invariant Pending(text, pat, rep, pos) == ReplaceAll(text0, pat, rep)
      decreases |text| - pos
    {
      var found := Find(text, pat, pos);
      if found.None? {
        ReplaceTailNone(text, pat, rep, pos);
        return;
      }
      var p := found.value;
      ReplaceStep(text, pat, rep, pos, p);
      text, pos := text[..p] + rep + text[p + size..], p + |rep|;
    }
    PendingEnd(text, pat, rep);
  }

  lemma RewriteRow(s: string, t: nat, encode: bool)
    requires t < |Table|
    ensures Rewrite(s, Table[t..], encode)
         == Rewrite(ReplaceAll(s, Pattern(Table[t], encode), Replacement(Table[t], encode)), Table[t + 1..], encode)
  {
    assert Table[t..][0] == Table[t] && Table[t..][1..] == Table[t + 1..];
  }

  lemma RewriteDone(s: string, encode: bool)
    ensures Rewrite(s, Table[|Table|..], encode) == s
  {
    assert Table[|Table|..] == [];
  }

  /** `transcode_text(text, encode)`. */
  method TranscodeText(text0: string, encode: bool) returns (text: string)
    ensures encode ==> text == EncodeText(text0)
    ensures !encode ==> text == DecodeText(text0)
  {
    text := text0;
    if text != [] {
      for t := 0 to |Table|
        invariant text != []
        invariant Rewrite(text, Table[t..], encode) == Rewrite(text0, Table, encode)
      {
        RewriteRow(text, t, encode);
        text := ReplaceInPlace(text, Pattern(Table[t], encode), Replacement(Table[t], encode));
      }
      RewriteDone(text, encode);
    } else {
      RewriteEmpty(Table, encode);
    }
    if encode {
      text := "\"" + text + "\"";
    } else {
      ghost var escaped := text;
      if text != [] && text[0] == '"' {
        text := text[1..];
      }
      if text != [] && text[|text| - 1] == '"' {
        text := text[..|text| - 1];
      }
      assert text == StripQuotes(escaped);
    }
  }

  // ---------------------------------------------------------------------
  // What the codec computes: a character-by-character escape.
  // ---------------------------------------------------------------------

  /** The row of `Table` whose plain side is `c`, or 4 when `c` is not escaped. */
  function SpecialIndex(c: char): (i: nat)
    ensures i <= 4
    ensures i < 4 ==> Table[i].0 == [c]
    ensures i == 4 <==> c != '\t' && c != '\n' && c != '\r' && c != '"'
  {
    if c == '\t' then 0 else if c == '\n' then 1 else if c == '\r' then 2 else if c == '"' then 3 else 4
  }

  /** `c` after the table rows `lo` .. `hi` - 1 have been applied to it. */
  function EscChar(c: char, lo: nat, hi: nat): string
  {
    var i := SpecialIndex(c);
    if lo <= i < hi && i < 4 then Table[i].1 else [c]
  }

  /** `s` with the table rows `lo` .. `hi` - 1 applied character by character. */
  function Esc(s: string, lo: nat, hi: nat): string
    decreases |s|
  {
    if s == [] then [] else EscChar(s[0], lo, hi) + Esc(s[1..], lo, hi)
  }

  /** Every tab, newline, carriage return and double quote of `s` written as its
      two-character backslash escape; every other character kept. */
  function Escape(s: string): string
  {
    Esc(s, 0, 4)
  }

  predicate NoBackslash(s: string)
  {
    forall i :: 0 <= i < |s| ==> s[i] != '\\'
  }

  lemma {:induction false} EscIdentity(s: string, n: nat)
    ensures Esc(s, n, n) == s
    decreases |s|
  {
    if s != [] {
      EscIdentity(s[1..], n);
      assert s == [s[0]] + s[1..];
    }
  }

  lemma {:induction false} ReplaceSingleConcat(a: string, b: string, pat: string, rep: string)
    requires |pat| == 1
    ensures ReplaceAll(a + b, pat, rep) == ReplaceAll(a, pat, rep) + ReplaceAll(b, pat, rep)
    decreases |a|
  {
    if a == [] {
      assert a + b == b;
    } else {
      assert (a + b)[1..] == a[1..] + b;
      assert MatchAt(a + b, pat, 0) == MatchAt(a, pat, 0);
      ReplaceSingleConcat(a[1..], b, pat, rep);
    }
  }

  lemma ReplaceSingleChar(c: char, pat: string, rep: string)
    requires |pat| == 1
    ensures ReplaceAll([c], pat, rep) == if c == pat[0] then rep else [c]
  {
    assert [c][1..] == [];
  }

  /** Applying table row `n` to a text escaped by rows 0 .. n-1 escapes it by rows 0 .. n. */
  lemma {:induction false} EncodeRowStep(s: string, n: nat)
    requires n < 4
    ensures ReplaceAll(Esc(s, 0, n), Table[n].0, Table[n].1) == Esc(s, 0, n + 1)
    decreases |s|
  {
    if s != [] {
      var c := s[0];
      var pat, rep := Table[n].0, Table[n].1;
      ReplaceSingleConcat(EscChar(c, 0, n), Esc(s[1..], 0, n), pat, rep);
      EncodeRowStep(s[1..], n);
      var i := SpecialIndex(c);
      if i < n {
        var e := Table[i].1;
        assert e == [e[0]] + [e[1]];
        ReplaceSingleConcat([e[0]], [e[1]], pat, rep);
        ReplaceSingleChar(e[0], pat, rep);
        ReplaceSingleChar(e[1], pat, rep);
      } else {
        ReplaceSingleChar(c, pat, rep);
      }
    }
  }

  lemma {:induction false} EncodeRows(s: string, n: nat)
    requires n <= 4
    ensures Rewrite(Esc(s, 0, n), Table[n..], true) == Escape(s)
    decreases 4 - n
  {
    if n < 4 {
      assert Table[n..][0] == Table[n] && Table[n..][1..] == Table[n + 1..];
      EncodeRowStep(s, n);
      EncodeRows(s, n + 1);
    }
  }

  /** Encoding is escaping plus quoting, for every text. */
  lemma EncodeTextIsEscape(s: string)
    ensures EncodeText(s) == "\"" + Escape(s) + "\""
  {
    EscIdentity(s, 0);
    EncodeRows(s, 0);
  }

  lemma ReplaceKeepsHead(x: char, t: string, pat: string, rep: string)
    requires pat != [] && x != pat[0]
    ensures ReplaceAll([x] + t, pat, rep) == [x] + ReplaceAll(t, pat, rep)
  {
    assert ([x] + t)[1..] == t;
    if |[x] + t| >= |pat| {
      assert !MatchAt([x] + t, pat, 0);
    } else {
      assert |t| < |pat|;
    }
  }

  lemma ReplaceNoMatchHead(s: string, pat: string, rep: string)
    requires pat != [] && s != [] && !MatchAt(s, pat, 0)
    ensures ReplaceAll(s, pat, rep) == [s[0]] + ReplaceAll(s[1..], pat, rep)
  {
    if |s| < |pat| {
      assert s == [s[0]] + s[1..];
    }
  }

  lemma NoBackslashTail(s: string)
    requires s != [] && NoBackslash(s)
    ensures s[0] != '\\' && NoBackslash(s[1..])
  {
    assert forall i :: 0 <= i < |s[1..]| ==> s[1..][i] == s[i + 1];
  }

  /** A pattern starting with a backslash never matches in a backslash-free text. */
  lemma {:induction false} NoBackslashKept(s: string, pat: string, rep: string)
    requires pat != [] && pat[0] == '\\' && NoBackslash(s)
    ensures ReplaceAll(s, pat, rep) == s
    decreases |s|
  {
    if s != [] {
      NoBackslashTail(s);
      NoBackslashKept(s[1..], pat, rep);
      ReplaceKeepsHead(s[0], s[1..], pat, rep);
      assert [s[0]] + s[1..] == s;
    }
  }

  /** Decoding rows `n` .. 3 leave a backslash-free text as it is. */
  lemma {:induction false} RewriteKeeps(s: string, n: nat)
    requires n <= 4 && NoBackslash(s)
    ensures Rewrite(s, Table[n..], false) == s
    decreases 4 - n
  {
    if n < 4 {
      assert Table[n..][0] == Table[n] && Table[n..][1..] == Table[n + 1..];
      NoBackslashKept(s, Table[n].1, Table[n].0);
      RewriteKeeps(s, n + 1);
    }
  }

  /** An escape at the head that is the pattern is replaced. */
  lemma EscapeHit(rest: string, pat: string, rep: string)
    requires |pat| == 2
    ensures ReplaceAll(pat + rest, pat, rep) == rep + ReplaceAll(rest, pat, rep)
  {
    assert MatchAt(pat + rest, pat, 0) by { assert (pat + rest)[..2] == pat; }
    assert (pat + rest)[2..] == rest;
  }

  /** An escape at the head that is another escape is kept. */
  lemma EscapeMiss(e: string, rest: string, pat: string, rep: string)
    requires |e| == 2 && |pat| == 2 && e[1] != pat[1] && e[1] != pat[0]
    ensures ReplaceAll(e + rest, pat, rep) == e + ReplaceAll(rest, pat, rep)
  {
    assert (e + rest)[1..] == [e[1]] + rest;
    assert !MatchAt(e + rest, pat, 0) by { assert (e + rest)[1] == e[1]; }
    ReplaceNoMatchHead(e + rest, pat, rep);
    ReplaceKeepsHead(e[1], rest, pat, rep);
    assert [e[0]] + ([e[1]] + ReplaceAll(rest, pat, rep)) == e + ReplaceAll(rest, pat, rep);
  }

  lemma EscQuoted(s: string, lo: nat)
    requires s != []
    ensures Esc(s, lo, 4) + "\"" == EscChar(s[0], lo, 4) + (Esc(s[1..], lo, 4) + "\"")
  {
  }

  /** Reversing row `n` on an escaped, quoted text un-escapes exactly that row,
      provided the original text had no backslash. */
  lemma {:induction false} DecodeRowStep(s: string, n: nat)
    requires n < 4 && NoBackslash(s)
    ensures ReplaceAll(Esc(s, n, 4) + "\"", Table[n].1, Table[n].0) == Esc(s, n + 1, 4) + "\""
    decreases |s|
  {
    var pat, rep := Table[n].1, Table[n].0;
    if s == [] {
      assert Esc(s, n, 4) + "\"" == "\"";
    } else {
      var c := s[0];
      var rest := Esc(s[1..], n, 4) + "\"";
      NoBackslashTail(s);
      calc {
        ReplaceAll(Esc(s, n, 4) + "\"", pat, rep);
      == { EscQuoted(s, n); }
        ReplaceAll(EscChar(c, n, 4) + rest, pat, rep);
      == { DecodeCharStep(c, n, rest); }
        EscChar(c, n + 1, 4) + ReplaceAll(rest, pat, rep);
      == { DecodeRowStep(s[1..], n); }
        EscChar(c, n + 1, 4) + (Esc(s[1..], n + 1, 4) + "\"");
      == { EscQuoted(s, n + 1); }
        Esc(s, n + 1, 4) + "\"";
      }
    }
  }

  /** Reversing row `n` on one escaped character that is not a backslash. */
  lemma DecodeCharStep(c: char, n: nat, rest: string)
    requires n < 4 && c != '\\'
    ensures ReplaceAll(EscChar(c, n, 4) + rest, Table[n].1, Table[n].0)
         == EscChar(c, n + 1, 4) + ReplaceAll(rest, Table[n].1, Table[n].0)
  {
    var pat, rep := Table[n].1, Table[n].0;
    var i := SpecialIndex(c);
    if i == n {
      EscapeHit(rest, pat, rep);
    } else if n < i < 4 {
      EscapeMiss(Table[i].1, rest, pat, rep);
    } else {
      ReplaceKeepsHead(c, rest, pat, rep);
    }
  }

  lemma {:induction false} DecodeRows(s: string, n: nat)
    requires n <= 4 && NoBackslash(s)
    ensures Rewrite("\"" + Esc(s, n, 4) + "\"", Table[n..], false) == "\"" + s + "\""
    decreases 4 - n
  {
    if n < 4 {
      assert Table[n..][0] == Table[n] && Table[n..][1..] == Table[n + 1..];
      var pat, rep := Table[n].1, Table[n].0;
      assert "\"" + Esc(s, n, 4) + "\"" == ['"'] + (Esc(s, n, 4) + "\"");
      ReplaceKeepsHead('"', Esc(s, n, 4) + "\"", pat, rep);
      DecodeRowStep(s, n);
      assert ['"'] + (Esc(s, n + 1, 4) + "\"") == "\"" + Esc(s, n + 1, 4) + "\"";
      DecodeRows(s, n + 1);
    } else {
      EscIdentity(s, 4);
    }
  }

  /** Text round trip: decoding the encoding gives back any text free of backslashes. */
  lemma TextRoundTrip(s: string)
    requires NoBackslash(s)
    ensures DecodeText(EncodeText(s)) == s
  {
    EncodeTextIsEscape(s);
    DecodeRows(s, 0);
    StripQuoted(s);
  }

  lemma StripQuoted(s: string)
    ensures StripQuotes("\"" + s + "\"") == s
  {
    var q := "\"" + s + "\"";
    assert q[1..] == s + "\"";
    assert (s + "\"")[..|s|] == s;
  }

  /** The tolerant side of `from_raw_value<std::string>`: a text with no
      backslash that neither starts nor ends with a quote, as a hand-written
      file may hold it, decodes to itself. */
  lemma UnquotedText(t: string)
    requires NoBackslash(t)
    requires t == [] || (t[0] != '"' && t[|t| - 1] != '"')
    ensures DecodeText(t) == t
  {
    RewriteKeeps(t, 0);
    assert Table[0..] == Table;
  }

  /** No raw tab, newline or carriage return is left in an escaped text. */
  predicate NoControl(t: string)
  {
    forall i :: 0 <= i < |t| ==> t[i] != '\t' && t[i] != '\n' && t[i] != '\r'
  }

  /** Every double quote is the second half of a `\"` escape. */
  predicate QuotesEscaped(t: string)
  {
    forall i :: 0 <= i < |t| && t[i] == '"' ==> 0 < i && t[i - 1] == '\\'
  }

  lemma {:induction false} EscapeShape(s: string)
    ensures NoControl(Escape(s))
    ensures NoBackslash(s) ==> QuotesEscaped(Escape(s))
    ensures NoBackslash(s) && s != [] ==> Escape(s)[|Escape(s)| - 1] != '\\'
    decreases |s|
  {
    if s != [] {
      if NoBackslash(s) {
        NoBackslashTail(s);
      }
      EscapeShape(s[1..]);
      var e, r := EscChar(s[0], 0, 4), Escape(s[1..]);
      assert Escape(s) == e + r;
      assert |e| == 1 || e == ['\\', e[1]];
    }
  }

  /** The shape of an encoded text: quoted, at least two characters long,
      and free of raw tabs, newlines and carriage returns. */
  lemma EncodeTextShape(s: string)
    ensures var r := EncodeText(s);
      |r| >= 2 && r[0] == '"' && r[|r| - 1] == '"' && NoControl(r)
  {
    EncodeTextIsEscape(s);
    EscapeShape(s);
  }

  /** The empty text encodes to the two-character `""` and decodes back. */
  lemma EmptyText()
    ensures EncodeText([]) == "\"\""
    ensures DecodeText("\"\"") == []
  {
    EncodeTextIsEscape([]);
    TextRoundTrip([]);
  }

  /** Backslashes are not escaped, so a text holding a backslash followed by
      `t` comes back as a tab. The round trip is proved for backslash-free
      text; a backslash before `t`, `n`, `r` or a quote, or at the end, is lost. */
  lemma BackslashTextIsLossy()
    ensures EncodeText("\\t") == "\"\\t\""
    ensures DecodeText(EncodeText("\\t")) == "\t"
  {
    BackslashEncoded();
    BackslashDecoded();
  }

  lemma BackslashEncoded()
    ensures EncodeText("\\t") == "\"\\t\""
  {
    EncodeTextIsEscape("\\t");
    assert Escape("\\t") == "\\t";
  }

  lemma BackslashDecoded()
    ensures DecodeText("\"\\t\"") == "\t"
  {
    var q, t := "\"\\t\"", "\"\t\"";
    assert q == ['"'] + ("\\t" + "\"");
    ReplaceKeepsHead('"', "\\t" + "\"", "\\t", "\t");
    EscapeHit("\"", "\\t", "\t");
    assert ReplaceAll("\"", "\\t", "\t") == "\"";
    assert ['"'] + ("\t" + "\"") == t;
    assert ReplaceAll(q, "\\t", "\t") == t;
    assert NoBackslash(t);
    RewriteKeeps(t, 1);
    assert Table[0..] == Table;
    RewriteRow(q, 0, false);
    StripQuoted("\t");
  }
}

