/** The array codec: `to_raw_value(container)`, `splitArray` and `from_raw_array`. */
module Arrays {
  import opened Wrappers
  import opened Transcode
  import opened Scalars

  // ---------------------------------------------------------------------
  // Encoding.
  // ---------------------------------------------------------------------

  /** The pieces separated by commas, none before the first or after the last. */
  function Join(ps: seq<string>): string
  {
    if |ps| == 0 then "" else if |ps| == 1 then ps[0] else ps[0] + "," + Join(ps[1..])
  }

  /** The scalar encoding of each element, in order. */
  function EncodeAll(xs: seq<Scalar>): (r: seq<string>)
    requires forall i :: 0 <= i < |xs| ==> WellTyped(xs[i])
    ensures |r| == |xs| && forall i :: 0 <= i < |xs| ==> r[i] == Encode(xs[i])
  {
    if xs == [] then [] else EncodeAll(xs[..|xs| - 1]) + [Encode(xs[|xs| - 1])]
  }

  /** `to_raw_value(container)`: `[`, the encoded elements joined by commas, `]`. */
  function EncodeArray(xs: seq<Scalar>): string
    requires forall i :: 0 <= i < |xs| ==> WellTyped(xs[i])
  {
    "[" + Join(EncodeAll(xs)) + "]"
  }

  lemma {:induction false} JoinSnoc(ps: seq<string>, p: string)
    ensures Join(ps + [p]) == if ps == [] then p else Join(ps) + "," + p
    decreases |ps|
  {
    if |ps| >= 2 {
      assert (ps + [p])[1..] == ps[1..] + [p];
      JoinSnoc(ps[1..], p);
    } else if |ps| == 1 {
      assert (ps + [p])[1..] == [p];
    }
  }

  /** One more element written: behind a comma unless it is the first. */
  lemma JoinPrefix(xs: seq<Scalar>, i: nat)
    requires i < |xs| && forall i :: 0 <= i < |xs| ==> WellTyped(xs[i])
    ensures var p := "[" + Join(EncodeAll(xs[..i]));
      "[" + Join(EncodeAll(xs[..i + 1])) == (if i == 0 then p else p + ",") + Encode(xs[i])
  {
    assert xs[..i + 1][..i] == xs[..i];
    var ps := EncodeAll(xs[..i]);
    JoinSnoc(ps, Encode(xs[i]));
    if i == 0 {
      assert ps == [];
    } else {
      assert "[" + (Join(ps) + "," + Encode(xs[i])) == ("[" + Join(ps) + ",") + Encode(xs[i]);
    }
  }

  lemma WholePrefix(xs: seq<Scalar>)
    requires forall i :: 0 <= i < |xs| ==> WellTyped(xs[i])
    ensures "[" + Join(EncodeAll(xs[..|xs|])) + "]" == EncodeArray(xs)
  {
    assert xs[..|xs|] == xs;
  }

  /** The `ostringstream` loop of `to_raw_value(container)` with its `sep` flag. */
  method ToRawArray(xs: seq<Scalar>) returns (r: string)
    requires forall i :: 0 <= i < |xs| ==> WellTyped(xs[i])
    ensures r == EncodeArray(xs)
  {
    r := "[";
    var sep := false;
    for i := 0 to |xs|
      invariant sep == (i > 0)
      invariant r == "[" + Join(EncodeAll(xs[..i]))
    {
      if sep {
        r := r + ",";
      }
      sep := true;
      var e := ToRawValue(xs[i]);
      JoinPrefix(xs, i);
      r := r + e;
    }
    WholePrefix(xs);
    r := r + "]";
  }

  // ---------------------------------------------------------------------
  // Splitting.
  // ---------------------------------------------------------------------

  /** `s.find(c)`. */
  function FindChar(s: string, c: char, from: nat): (r: Option<nat>)
    ensures r.Some? ==> from <= r.value < |s| && s[r.value] == c
    ensures forall i :: from <= i < |s| && (r.None? || i < r.value) ==> s[i] != c
    decreases |s| - from
  {
    if from >= |s| then None else if s[from] == c then Some(from) else FindChar(s, c, from + 1)
  }

  /** `s.rfind(c)` restricted to the first `n` characters. */
  function RFindChar(s: string, c: char, n: nat): (r: Option<nat>)
    requires n <= |s|
    ensures r.Some? ==> r.value < n && s[r.value] == c
    ensures forall i :: 0 <= i < n && (r.None? || i > r.value) ==> s[i] != c
  {
    if n == 0 then None else if s[n - 1] == c then Some(n - 1) else RFindChar(s, c, n - 1)
  }

  /** `s.find_first_of(",]", from)`. */
  function FindSeparator(s: string, from: nat): (r: Option<nat>)
    ensures r.Some? ==> from <= r.value < |s| && (s[r.value] == ',' || s[r.value] == ']')
    ensures forall i :: from <= i < |s| && (r.None? || i < r.value) ==> s[i] != ',' && s[i] != ']'
    decreases |s| - from
  {
    if from >= |s| then None
    else if s[from] == ',' || s[from] == ']' then Some(from)
    else FindSeparator(s, from + 1)
  }

  /** A double quote that no backslash precedes. */
  predicate ClosingQuoteAt(s: string, i: nat)
  {
    0 < i < |s| && s[i] == '"' && s[i - 1] != '\\'
  }

  /** The first closing quote at or after `i`. */
  function ClosingQuoteFrom(s: string, i: nat): (r: Option<nat>)
    ensures r.Some? ==> i <= r.value && ClosingQuoteAt(s, r.value)
    ensures forall j :: i <= j && (r.None? || j < r.value) ==> !ClosingQuoteAt(s, j)
    decreases |s| - i
  {
    if i >= |s| then None
    else if ClosingQuoteAt(s, i) then Some(i)
    else ClosingQuoteFrom(s, i + 1)
  }

  /** `findStringEnd(s, pos)`: the quote that ends a quoted element opened at `pos`. */
  function StringEnd(s: string, pos: nat): Option<nat>
  {
    ClosingQuoteFrom(s, pos + 1)
  }

  /** An element `splitArray` cuts at the next separator. */
  predicate UnquotedPiece(p: string)
  {
    p != [] && p[0] != '"' && forall i :: 0 <= i < |p| ==> p[i] != ',' && p[i] != ']'
  }

  /** An element `splitArray` cuts at its closing quote. */
  predicate QuotedPiece(p: string)
  {
    |p| >= 2 && p[0] == '"' && ClosingQuoteAt(p, |p| - 1)
    && forall i :: 0 < i < |p| - 1 ==> !ClosingQuoteAt(p, i)
  }

  /** Where the element starting at `pos` ends (exclusive): just past its
      closing quote when it opens with a quote, at the next separator
      otherwise; `None` when there is no such end. */
  function PieceEnd(a: string, pos: nat): (r: Option<nat>)
    requires pos < |a| && a[pos] != ',' && a[pos] != ']'
    ensures r.Some? ==> pos < r.value <= |a|
  {
    if a[pos] == '"' then
      match StringEnd(a, pos)
      case None => None
      case Some(e) => Some(e + 1)
    else
      FindSeparator(a, pos)
  }

  /** What `splitArray` cuts out of the interior of an array, from `pos` on. */
  function Scan(a: string, pos: nat): seq<string>
    decreases |a| - pos
  {
    if pos >= |a| || a[pos] == ']' then []
    else if a[pos] == ',' then Scan(a, pos + 1)
    else
      match PieceEnd(a, pos)
      case None => []
      case Some(e) => [a[pos..e]] + Scan(a, e)
  }

  /** Every element cut out is non-empty and either runs from a quote to a
      quote or holds no separator. */
  predicate CutPiece(p: string)
  {
    p != [] && if p[0] == '"' then |p| >= 2 && p[|p| - 1] == '"'
               else forall j :: 0 <= j < |p| ==> p[j] != ',' && p[j] != ']'
  }

  lemma {:induction false} ScanPieces(a: string, pos: nat)
    ensures forall i :: 0 <= i < |Scan(a, pos)| ==> CutPiece(Scan(a, pos)[i])
    decreases |a| - pos
  {
    if pos >= |a| || a[pos] == ']' {
    } else if a[pos] == ',' {
      ScanPieces(a, pos + 1);
    } else {
      match PieceEnd(a, pos)
      case None =>
      case Some(e) =>
        ScanPieces(a, e);
        PieceCut(a, pos, e);
    }
  }

  lemma PieceCut(a: string, pos: nat, e: nat)
    requires pos < |a| && a[pos] != ',' && a[pos] != ']'
    requires PieceEnd(a, pos) == Some(e)
    ensures CutPiece(a[pos..e])
  {
    var p := a[pos..e];
    assert forall j :: 0 <= j < |p| ==> p[j] == a[pos + j];
  }

  /** `splitArray(a)`: the elements from the first `[` up to the first `]`
      outside a quoted element, provided the last `]` lies more than one
      place after that `[`. */
  function SplitArray(a: string): seq<string>
  {
    var b := FindChar(a, '[', 0);
    var e := RFindChar(a, ']', |a|);
    if b.None? || e.None? || b.value + 1 >= e.value then [] else Scan(a, b.value + 1)
  }

  /** The `for` loop of `findStringEnd`. */
  method FindStringEnd(s: string, pos: nat) returns (r: Option<nat>)
    ensures r == StringEnd(s, pos)
  {
    var i := pos + 1;
    while i < |s|
      invariant pos + 1 <= i
      invariant ClosingQuoteFrom(s, i) == StringEnd(s, pos)
      decreases |s| - i
    {
      if s[i] == '"' && s[i - 1] != '\\' {
        return Some(i);
      }
      i := i + 1;
    }
    return None;
  }

  /** One step of the scanner: the end of the element at `pos`. */
  method NextPieceEnd(a: string, pos: nat) returns (r: Option<nat>)
    requires pos < |a| && a[pos] != ',' && a[pos] != ']'
    ensures r == PieceEnd(a, pos)
  {
    if a[pos] == '"' {
      r := FindStringEnd(a, pos);
      if r.Some? {
        r := Some(r.value + 1);
      }
    } else {
      r := FindSeparator(a, pos);
    }
  }

  /** `splitArray`: the scanner loop over the interior of the brackets. */
  method SplitArrayText(raw: string) returns (values: seq<string>)
    ensures values == SplitArray(raw)
  {
    var b := FindChar(raw, '[', 0);
    var e := RFindChar(raw, ']', |raw|);
    if b.None? || e.None? || b.value + 1 >= e.value {
      return [];
    }
    values := [];
    var pos := b.value + 1;
    ghost var start := pos;
    while pos < |raw|
      invariant values + Scan(raw, pos) == Scan(raw, start)
      decreases |raw| - pos
    {
      if raw[pos] == ']' {
        break;
      }
      if raw[pos] == ',' {
        pos := pos + 1;
        continue;
      }
      var end := NextPieceEnd(raw, pos);
      if end.None? {
        break;
      }
      var piece := raw[pos..end.value];
      assert values + [piece] + Scan(raw, end.value) == values + Scan(raw, pos);
      values := values + [piece];
      pos := end.value;
    }
  }

  // ---------------------------------------------------------------------
  // Decoding and the array round trip.
  // ---------------------------------------------------------------------

  /** An element `splitArray` gives back whole when it sits between separators. */
  predicate Piece(p: string)
  {
    UnquotedPiece(p) || QuotedPiece(p)
  }

  /** A piece written at `pos` and followed by a separator is cut at its end. */
  lemma PieceEndAt(a: string, pos: nat, p: string)
    requires Piece(p) && pos + |p| < |a| && a[pos..pos + |p|] == p
    requires a[pos + |p|] == ',' || a[pos + |p|] == ']'
    ensures a[pos] == p[0] && a[pos] != ',' && a[pos] != ']'
    ensures PieceEnd(a, pos) == Some(pos + |p|)
  {
    assert forall j :: 0 <= j < |p| ==> a[pos + j] == p[j];
    if p[0] == '"' {
      var q := pos + |p| - 1;
      assert ClosingQuoteAt(a, q) by {
        assert a[q] == p[|p| - 1] && a[q - 1] == p[|p| - 2];
      }
      assert forall j :: pos + 1 <= j < q ==> !ClosingQuoteAt(a, j) by {
        forall j | pos + 1 <= j < q
          ensures !ClosingQuoteAt(a, j)
        {
          assert !ClosingQuoteAt(p, j - pos);
          assert a[j] == p[j - pos] && a[j - 1] == p[j - pos - 1];
        }
      }
    } else {
    }
  }

  /** Where `p,rest` is written at `pos`, `p` and `rest` are written around the comma. */
  lemma SliceParts(a: string, pos: nat, p: string, rest: string)
    requires pos + |p| + 1 + |rest| <= |a| && a[pos..pos + |p| + 1 + |rest|] == p + "," + rest
    ensures a[pos..pos + |p|] == p && a[pos + |p|] == ','
    ensures a[pos + |p| + 1..pos + |p| + 1 + |rest|] == rest
  {
    var w := a[pos..pos + |p| + 1 + |rest|];
    assert a[pos..pos + |p|] == w[..|p|];
    assert a[pos + |p|] == w[|p|];
    assert a[pos + |p| + 1..pos + |p| + 1 + |rest|] == w[|p| + 1..];
  }

  /** The pieces joined by commas and followed by `]` scan back to themselves. */
  lemma {:induction false} ScanJoin(a: string, pos: nat, ps: seq<string>)
    requires forall i :: 0 <= i < |ps| ==> Piece(ps[i])
    requires pos + |Join(ps)| < |a| && a[pos..pos + |Join(ps)|] == Join(ps)
    requires a[pos + |Join(ps)|] == ']'
    ensures Scan(a, pos) == ps
    decreases |ps|
  {
    if ps == [] {
    } else {
      var p := ps[0];
      var n := pos + |p|;
      if |ps| == 1 {
        PieceEndAt(a, pos, p);
      } else {
        var rest := Join(ps[1..]);
        SliceParts(a, pos, p, rest);
        PieceEndAt(a, pos, p);
        ScanJoin(a, n + 1, ps[1..]);
        assert Scan(a, n) == Scan(a, n + 1);
        assert ps == [p] + ps[1..];
      }
    }
  }

  /** Joining pieces is empty only for no pieces. */
  lemma JoinEmpty(ps: seq<string>)
    requires forall i :: 0 <= i < |ps| ==> Piece(ps[i])
    ensures Join(ps) == [] <==> ps == []
  {
    if |ps| == 1 {
      assert Piece(ps[0]);
    } else if |ps| > 1 {
      assert Piece(ps[0]);
      assert |Join(ps)| >= |ps[0]|;
    }
  }

  /** Text that opens with `[` and closes with `]` is scanned from just
      behind the opening bracket. */
  lemma SplitBracketed(a: string)
    requires |a| >= 2 && a[0] == '[' && a[|a| - 1] == ']'
    ensures SplitArray(a) == if |a| == 2 then [] else Scan(a, 1)
  {
    assert FindChar(a, '[', 0) == Some(0);
    assert RFindChar(a, ']', |a|) == Some(|a| - 1);
  }

  /** Split/join round trip: pieces put between brackets and joined by
      commas are split back into the same pieces. */
  lemma SplitJoin(ps: seq<string>)
    requires forall i :: 0 <= i < |ps| ==> Piece(ps[i])
    ensures SplitArray("[" + Join(ps) + "]") == ps
  {
    var j := Join(ps);
    var a := "[" + j + "]";
    Bracketed(j);
    SplitBracketed(a);
    JoinEmpty(ps);
    if ps != [] {
      ScanJoin(a, 1, ps);
    }
  }

  lemma Bracketed(j: string)
    ensures var a := "[" + j + "]";
      |a| == |j| + 2 && a[0] == '[' && a[|a| - 1] == ']'
      && a[1..1 + |j|] == j && a[1 + |j|] == ']'
  {
  }

  /** Every encoded bool, integer and lossless text is a piece. */
  lemma EncodedPiece(v: Scalar)
    requires WellTyped(v) && Lossless(v) && !v.RawVal?
    ensures Piece(Encode(v))
  {
    match v
    case BoolVal(b) =>
    case IntVal(w, i) =>
      var d := ShowNat(if i < 0 then -i else i);
      var r := Encode(v);
      assert r == d || r == "-" + d;
      assert forall k :: 0 <= k < |r| ==> IsDigit(r[k]) || r[k] == '-';
    case TextVal(s) =>
      QuotedEscapePiece(s);
  }

  /** A backslash-free text, escaped and quoted, is a quoted piece. */
  lemma QuotedEscapePiece(s: string)
    requires NoBackslash(s)
    ensures Piece(Encode(TextVal(s)))
  {
    EncodeTextIsEscape(s);
    EscapeShape(s);
    var x := Escape(s);
    var r := "\"" + x + "\"";
    assert forall k :: 0 < k < |r| - 1 ==> r[k] == x[k - 1];
    assert r[|r| - 2] != '\\' by {
      if s == [] {
        assert x == [] by {
          assert Esc(s, 0, 4) == [];
        }
      } else {
        assert r[|r| - 2] == x[|x| - 1];
      }
    }
    forall k | 0 < k < |r| - 1
      ensures !ClosingQuoteAt(r, k)
    {
      if r[k] == '"' {
        assert x[k - 1] == '"';
        assert k - 1 > 0 && x[k - 2] == '\\';
      }
    }
    assert QuotedPiece(r);
  }

  /** `from_raw_value<T>` applied to each element. */
  function DecodeAll(k: Kind, ps: seq<string>): (r: seq<Scalar>)
    ensures |r| == |ps| && forall i :: 0 <= i < |ps| ==> r[i] == Decode(k, ps[i])
  {
    if ps == [] then [] else DecodeAll(k, ps[..|ps| - 1]) + [Decode(k, ps[|ps| - 1])]
  }

  /** `from_raw_array<T>(raw)`. */
  function DecodeArray(k: Kind, raw: string): seq<Scalar>
  {
    DecodeAll(k, SplitArray(raw))
  }

  /** The loop of `from_raw_array`. */
  method FromRawArray(k: Kind, raw: string) returns (out: seq<Scalar>)
    ensures out == DecodeArray(k, raw)
    ensures forall i :: 0 <= i < |out| ==> KindOf(out[i]) == k && WellTyped(out[i])
  {
    var vs := SplitArrayText(raw);
    out := [];
    for i := 0 to |vs|
      invariant out == DecodeAll(k, vs[..i])
    {
      var x := FromRawValue(k, vs[i]);
      assert vs[..i + 1][..i] == vs[..i];
      out := out + [x];
    }
    assert vs[..|vs|] == vs;
  }

  /** Only the first `]` outside a quoted element ends the scan: a `]` inside
      quotes belongs to the element even when it is the last `]` of the
      text, and an unquoted `]` stops the scan before a later one. */
  lemma ClosingBracket(q: string, u: string)
    requires q == "[\"a]\"x" && u == "[a]b]"
    ensures SplitArray(q) == [q[1..5]] && q[1..5] == "\"a]\""
    ensures SplitArray(u) == [u[1..2]] && u[1..2] == "a"
  {
    assert |q| == 6 && q[0] == '[' && q[1] == '"' && q[2] == 'a' && q[3] == ']' && q[4] == '"' && q[5] == 'x';
    assert RFindChar(q, ']', 4) == Some(3);
    assert RFindChar(q, ']', 6) == Some(3);
    assert ClosingQuoteFrom(q, 4) == Some(4);
    assert ClosingQuoteFrom(q, 2) == Some(4);
    assert Scan(q, 5) == [];
    assert Scan(q, 1) == [q[1..5]];
    assert |u| == 5 && u[0] == '[' && u[1] == 'a' && u[2] == ']' && u[3] == 'b' && u[4] == ']';
    assert RFindChar(u, ']', 5) == Some(4);
    assert FindSeparator(u, 1) == Some(2);
    assert Scan(u, 1) == [u[1..2]];
  }

  /** No elements come out of text without a `[`, without a `]`, or whose
      last `]` is at most one position behind its first `[`. */
  lemma NoElements(a: string)
    requires
      || (forall i :: 0 <= i < |a| ==> a[i] != '[')
      || (forall i :: 0 <= i < |a| ==> a[i] != ']')
      || (exists b :: 0 <= b < |a| && a[b] == '['
            && (forall i :: 0 <= i < b ==> a[i] != '[')
            && (forall i :: b + 1 < i < |a| ==> a[i] != ']'))
    ensures SplitArray(a) == []
  {
    var f := FindChar(a, '[', 0);
    var l := RFindChar(a, ']', |a|);
    if f.Some? && l.Some? {
      var b :| 0 <= b < |a| && a[b] == '['
        && (forall i :: 0 <= i < b ==> a[i] != '[')
        && (forall i :: b + 1 < i < |a| ==> a[i] != ']');
      assert f.value == b;
      assert l.value <= b + 1;
    }
  }

  /** Splitting the encoding of bools, integers, backslash-free texts and
      raw texts that are pieces gives back each element's own encoding. */
  lemma SplitEncodeArray(xs: seq<Scalar>)
    requires forall i :: 0 <= i < |xs| ==> WellTyped(xs[i]) && Lossless(xs[i])
    requires forall i :: 0 <= i < |xs| ==> xs[i].RawVal? ==> Piece(xs[i].raw)
    ensures SplitArray(EncodeArray(xs)) == EncodeAll(xs)
  {
    var ps := EncodeAll(xs);
    EncodedPieces(xs);
    SplitJoin(ps);
  }

  lemma EncodedPieces(xs: seq<Scalar>)
    requires forall i :: 0 <= i < |xs| ==> WellTyped(xs[i]) && Lossless(xs[i])
    requires forall i :: 0 <= i < |xs| ==> xs[i].RawVal? ==> Piece(xs[i].raw)
    ensures forall i :: 0 <= i < |xs| ==> Piece(EncodeAll(xs)[i])
  {
    forall i | 0 <= i < |xs|
      ensures Piece(EncodeAll(xs)[i])
    {
      if !xs[i].RawVal? {
        EncodedPiece(xs[i]);
      }
    }
  }

  /** Array round trip: a sequence of bools, integers or backslash-free texts,
      all of one kind, decodes back from its encoding (the empty sequence too). */
  lemma ArrayRoundTrip(k: Kind, xs: seq<Scalar>)
    requires k != RawKind
    requires forall i :: 0 <= i < |xs| ==> KindOf(xs[i]) == k && WellTyped(xs[i]) && Lossless(xs[i])
    ensures DecodeArray(k, EncodeArray(xs)) == xs
  {
    var ps := EncodeAll(xs);
    SplitEncodeArray(xs);
    var r := DecodeAll(k, ps);
    assert DecodeArray(k, EncodeArray(xs)) == r;
    forall i | 0 <= i < |xs|
      ensures r[i] == xs[i]
    {
      DecodeEncoded(k, xs[i], ps[i]);
    }
    assert r == xs;
  }

  lemma DecodeEncoded(k: Kind, v: Scalar, p: string)
    requires WellTyped(v) && Lossless(v) && KindOf(v) == k && p == Encode(v)
    ensures Decode(k, p) == v
  {
    ScalarRoundTrip(v);
  }

  lemma JoinFour(w: string, x: string, y: string, z: string)
    ensures Join([w, x, y, z]) == w + "," + (x + "," + (y + "," + z))
  {
    assert [w, x, y, z][1..] == [x, y, z] && [x, y, z][1..] == [y, z] && [y, z][1..] == [z];
    assert Join([z]) == z;
    assert Join([y, z]) == y + "," + Join([z]);
    assert Join([x, y, z]) == x + "," + Join([y, z]);
    assert Join([w, x, y, z]) == w + "," + Join([x, y, z]);
  }

  /** `["","","",""]` holds four elements, each the encoded empty text `""`:
      it decodes to four empty texts, and to four integers as well. */
  lemma FourEmptyTexts(q: string)
    requires q == "\"\""
    ensures SplitArray("[" + q + "," + q + "," + q + "," + q + "]") == [q, q, q, q]
    ensures DecodeArray(TextKind, "[" + q + "," + q + "," + q + "," + q + "]")
      == [TextVal(""), TextVal(""), TextVal(""), TextVal("")]
    ensures |DecodeArray(IntKind(Int), "[" + q + "," + q + "," + q + "," + q + "]")| == 4
  {
    assert QuotedPiece(q);
    JoinFour(q, q, q, q);
    assert "[" + q + "," + q + "," + q + "," + q + "]" == "[" + Join([q, q, q, q]) + "]";
    SplitJoin([q, q, q, q]);
    EmptyText();
  }
}
