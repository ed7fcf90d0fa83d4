/** The configuration as plain data: what `ConfigImpl::operator[]` and the
    assignments do to it, what `count` adds up, the lines `save` writes and
    the line state machine `load` runs. The `Ini` module runs the same
    operations on objects and is proved against these definitions. */
module Document {
  import opened Wrappers
  import opened Lexical
  import opened Arrays

  // ---------------------------------------------------------------------
  // Entries by value.
  // ---------------------------------------------------------------------

  /** An `Entry<0>`: its own raw text, its `m_section` flag and the raw
      texts of its sub-keys (`m_kv`). */
  datatype Slot = Slot(raw: string, section: bool, sub: map<string, string>)

  /** `m_entries`. */
  type Doc = map<string, Slot>

  /** A default-constructed `Entry<0>`. */
  const NewSlot := Slot("", false, map[])

  /** `Entry<0>::empty()`. */
  predicate SlotEmpty(s: Slot)
  {
    if s.section then s.sub == map[] else s.raw == ""
  }

  /** `Entry<0>::count()`: a section counts its sub-keys, so it counts 0
      exactly when it is empty; a plain entry counts 1, even when empty. */
  function SlotCount(s: Slot): (r: nat)
    ensures s.section ==> (r == 0 <==> SlotEmpty(s))
    ensures !s.section ==> r == 1
  {
    if s.section then |s.sub| else 1
  }

  /** `ConfigImpl::operator[](name)`: the entry is created only when absent. */
  function DocIndex(d: Doc, name: string): (r: Doc)
    ensures r.Keys == d.Keys + {name}
    ensures forall k :: k in d ==> r[k] == d[k]
    ensures name !in d ==> r[name] == NewSlot
  {
    if name in d then d else d[name := NewSlot]
  }

  /** `Entry<0>::operator[](name)`: the entry becomes a section and `name`
      gets an empty sub-key only when absent. */
  function SlotIndex(s: Slot, name: string): (r: Slot)
    ensures r.raw == s.raw && r.section && name in r.sub
    ensures r.sub.Keys == s.sub.Keys + {name}
    ensures forall x :: x in s.sub ==> r.sub[x] == s.sub[x]
    ensures name !in s.sub ==> r.sub[name] == ""
  {
    Slot(s.raw, true, if name in s.sub then s.sub else s.sub[name := ""])
  }

  /** `config[key] = Raw{raw}`: `key` is created if absent, then
      `Entry<0>::operator=` clears the section flag and sets the raw text;
      the entry's sub-keys and every other entry stay. */
  function AssignRoot(d: Doc, key: string, raw: string): (r: Doc)
    ensures r.Keys == d.Keys + {key}
    ensures forall k :: k in d && k != key ==> r[k] == d[k]
    ensures r[key].raw == raw && !r[key].section
    ensures r[key].sub == (if key in d then d[key].sub else map[])
  {
    var e := DocIndex(d, key)[key];
    d[key := e.(raw := raw, section := false)]
  }

  /** `config[sec][key] = Raw{raw}`: `sec` is created if absent and becomes a
      section, and its sub-key `key`, created if absent, gets the raw text;
      the section's own raw text, its other sub-keys and every other entry
      stay. */
  function AssignSub(d: Doc, sec: string, key: string, raw: string): (r: Doc)
    ensures r.Keys == d.Keys + {sec}
    ensures forall k :: k in d && k != sec ==> r[k] == d[k]
    ensures r[sec].section && r[sec].raw == (if sec in d then d[sec].raw else "")
    ensures r[sec].sub == (if sec in d then d[sec].sub else map[])[key := raw]
  {
    var e := SlotIndex(DocIndex(d, sec)[sec], key);
    assert e.sub[key := raw] == DocIndex(d, sec)[sec].sub[key := raw];
    d[sec := e.(sub := e.sub[key := raw])]
  }

  /** After `operator[](name)` the entry is a non-empty section, and it
      counts one more sub-key exactly when `name` was absent. */
  lemma IndexedSlot(s: Slot, name: string)
    ensures var r := SlotIndex(s, name);
      r.section && !SlotEmpty(r) && SlotCount(r) == |s.sub| + (if name in s.sub then 0 else 1)
  {
    var r := SlotIndex(s, name);
    if name !in s.sub {
      assert r.sub.Keys == s.sub.Keys + {name};
      assert |r.sub.Keys| == |s.sub.Keys| + 1;
    } else {
      assert r.sub == s.sub;
    }
  }

  /** After `clear()` the entry is empty; it still counts 1 when plain. */
  lemma ClearedSlot(section: bool)
    ensures var r := Slot("", section, map[]);
      SlotEmpty(r) && SlotCount(r) == (if section then 0 else 1)
  {
  }

  /** After `Entry<0>::operator=` the entry is plain, counts 1, and is empty
      exactly when the assigned raw text is. */
  lemma AssignedSlot(s: Slot, raw: string)
    ensures var r := Slot(raw, false, s.sub);
      !r.section && SlotCount(r) == 1 && (SlotEmpty(r) <==> raw == "")
  {
  }

  /** What `AssignSub` leaves in the section: its own raw text, and its
      sub-keys with `key` set to `raw`. */
  lemma AssignSubShape(d: Doc, sec: string, key: string, raw: string)
    ensures var e := DocIndex(d, sec)[sec];
      AssignSub(d, sec, key, raw) == d[sec := Slot(e.raw, true, e.sub[key := raw])]
  {
    var e := DocIndex(d, sec)[sec];
    var f := SlotIndex(e, key);
    assert f.sub[key := raw] == e.sub[key := raw];
  }

  /** A later `config[key] = ..` overwrites an earlier one. */
  lemma AssignRootLast(d: Doc, key: string, a: string, b: string)
    ensures AssignRoot(AssignRoot(d, key, a), key, b) == AssignRoot(d, key, b)
  {
    var e := AssignRoot(AssignRoot(d, key, a), key, b);
    var f := AssignRoot(d, key, b);
    assert e.Keys == f.Keys;
    assert forall k :: k in e ==> e[k] == f[k];
  }

  // ---------------------------------------------------------------------
  // count().
  // ---------------------------------------------------------------------

  /** The sum of `SlotCount` over the entries whose names are in `ks`. */
  ghost function CountOver(d: Doc, ks: set<string>): nat
    requires ks <= d.Keys
    decreases ks
  {
    if ks == {} then 0
    else
      var k :| k in ks;
      SlotCount(d[k]) + CountOver(d, ks - {k})
  }

  /** `ConfigImpl::count()`: the sum of the entries' counts. */
  ghost function DocCount(d: Doc): nat
  {
    CountOver(d, d.Keys)
  }

  /** The sum does not depend on which entry is taken out first. */
  lemma {:induction false} CountOverRemove(d: Doc, ks: set<string>, k: string)
    requires ks <= d.Keys && k in ks
    ensures CountOver(d, ks) == SlotCount(d[k]) + CountOver(d, ks - {k})
    decreases ks
  {
    var j :| j in ks && CountOver(d, ks) == SlotCount(d[j]) + CountOver(d, ks - {j});
    if j != k {
      CountOverRemove(d, ks - {j}, k);
      CountOverRemove(d, ks - {k}, j);
      assert ks - {j} - {k} == ks - {k} - {j};
    }
  }

  /** The sum only looks at the entries it adds up. */
  lemma {:induction false} CountOverSame(d: Doc, e: Doc, ks: set<string>)
    requires ks <= d.Keys && ks <= e.Keys
    requires forall k :: k in ks ==> d[k] == e[k]
    ensures CountOver(d, ks) == CountOver(e, ks)
    decreases ks
  {
    if ks != {} {
      var k :| k in ks;
      CountOverRemove(d, ks, k);
      CountOverRemove(e, ks, k);
      CountOverSame(d, e, ks - {k});
    }
  }

  /** Adding an entry adds its count. */
  lemma DocCountAdd(d: Doc, k: string, s: Slot)
    requires k !in d
    ensures DocCount(d[k := s]) == DocCount(d) + SlotCount(s)
  {
    var e := d[k := s];
    CountOverRemove(e, e.Keys, k);
    assert e.Keys - {k} == d.Keys;
    CountOverSame(d, e, d.Keys);
  }

  /** Replacing an entry replaces its count in the total. */
  lemma DocCountUpdate(d: Doc, k: string, s: Slot)
    requires k in d
    ensures DocCount(d[k := s]) + SlotCount(d[k]) == DocCount(d) + SlotCount(s)
  {
    var e := d[k := s];
    CountOverRemove(e, e.Keys, k);
    CountOverRemove(d, d.Keys, k);
    assert e.Keys == d.Keys;
    CountOverSame(d, e, d.Keys - {k});
  }

  /** `config[key] = v` makes `key` count 1 in place of what it counted. */
  lemma AssignRootCount(d: Doc, key: string, raw: string)
    ensures DocCount(AssignRoot(d, key, raw)) + (if key in d then SlotCount(d[key]) else 0) == DocCount(d) + 1
  {
    var s := Slot(raw, false, if key in d then d[key].sub else map[]);
    assert AssignRoot(d, key, raw) == d[key := s];
    if key in d {
      DocCountUpdate(d, key, s);
    } else {
      DocCountAdd(d, key, s);
    }
  }

  /** Four distinct entries count as the sum of their counts. */
  lemma CountFour(k1: string, k2: string, s1: string, s2: string, a: Slot, b: Slot)
    requires |{k1, k2, s1, s2}| == 4
    ensures DocCount(map[k1 := a, k2 := a, s1 := b, s2 := b]) == 2 * SlotCount(a) + 2 * SlotCount(b)
  {
    assert k1 != k2 && s1 != s2 && k1 != s1 && k1 != s2 && k2 != s1 && k2 != s2;
    var d0: Doc := map[];
    var d1 := d0[k1 := a];
    var d2 := d1[k2 := a];
    var d3 := d2[s1 := b];
    DocCountAdd(d0, k1, a);
    DocCountAdd(d1, k2, a);
    DocCountAdd(d2, s1, b);
    DocCountAdd(d3, s2, b);
  }

  /** Two sub-key assignments on an absent section build a section of two
      sub-keys. */
  lemma TwoSubs(d: Doc, sec: string, k1: string, k2: string, v: string)
    requires sec !in d && k1 != k2
    ensures AssignSub(AssignSub(d, sec, k1, v), sec, k2, v)
      == d[sec := Slot("", true, map[k1 := v, k2 := v])]
  {
    var e := AssignSub(d, sec, k1, v);
    AssignSubShape(d, sec, k1, v);
    assert e == d[sec := Slot("", true, map[k1 := v])];
    AssignSubShape(e, sec, k2, v);
    assert e[sec := Slot("", true, map[k1 := v, k2 := v])] == d[sec := Slot("", true, map[k1 := v, k2 := v])];
  }

  /** An empty configuration counts 0; two keys and two sections of two
      sub-keys each, built by the assignments `config[..] = ..`, count 6. */
  lemma CountExample(k1: string, k2: string, s1: string, s2: string, v: string)
    requires |{k1, k2, s1, s2}| == 4
    ensures DocCount(map[]) == 0
    ensures
      var d := AssignRoot(AssignRoot(map[], k1, v), k2, v);
      var d' := AssignSub(AssignSub(d, s1, k1, v), s1, k2, v);
      DocCount(AssignSub(AssignSub(d', s2, k1, v), s2, k2, v)) == 6
  {
    assert k1 != k2 && s1 != s2 && k1 != s1 && k1 != s2 && k2 != s1 && k2 != s2;
    var sec := Slot("", true, map[k1 := v, k2 := v]);
    assert |sec.sub| == 2 by {
      assert sec.sub.Keys == {k1, k2};
    }
    var a := Slot(v, false, map[]);
    assert SlotCount(a) == 1 && SlotCount(sec) == 2;
    CountFour(k1, k2, s1, s2, a, sec);
    var d2: Doc := map[k1 := a, k2 := a];
    var d := AssignRoot(AssignRoot(map[], k1, v), k2, v);
    assert d == d2;
    TwoSubs(d2, s1, k1, k2, v);
    var d' := d2[s1 := sec];
    TwoSubs(d', s2, k1, k2, v);
    assert d'[s2 := sec] == map[k1 := a, k2 := a, s1 := sec, s2 := sec];
  }

  // ---------------------------------------------------------------------
  // save().
  // ---------------------------------------------------------------------

  /** The `SaveFlags` enumeration. */
  datatype SaveFlags = SaveFlagDefault | SaveFlagSkipEmptyKeys

  /** `flags & SaveFlag_SkipEmptyKeys`. */
  predicate Skips(flags: SaveFlags)
  {
    flags.SaveFlagSkipEmptyKeys?
  }

  /** `name=raw`. */
  function KeyLine(name: string, raw: string): string
  {
    name + "=" + raw
  }

  /** What the first pass writes for the entry `k`: nothing for sections and,
      when skipping, for empty entries. */
  function PlainLine(d: Doc, k: string, skip: bool): seq<string>
    requires k in d
  {
    if d[k].section || (skip && SlotEmpty(d[k])) then [] else [KeyLine(k, d[k].raw)]
  }

  /** The first pass over the entries named in `ks`, in that order. */
  function PlainLines(d: Doc, ks: seq<string>, skip: bool): seq<string>
    requires forall i :: 0 <= i < |ks| ==> ks[i] in d
  {
    if ks == [] then []
    else PlainLines(d, ks[..|ks| - 1], skip) + PlainLine(d, ks[|ks| - 1], skip)
  }

  /** The line written for the sub-key `x`: nothing when skipping an empty one. */
  function SubLine(m: map<string, string>, x: string, skip: bool): seq<string>
    requires x in m
  {
    if skip && m[x] == "" then [] else [KeyLine(x, m[x])]
  }

  /** The sub-key lines for the sub-keys named in `xs`, in that order. */
  function SubLines(m: map<string, string>, xs: seq<string>, skip: bool): seq<string>
    requires forall i :: 0 <= i < |xs| ==> xs[i] in m
  {
    if xs == [] then []
    else SubLines(m, xs[..|xs| - 1], skip) + SubLine(m, xs[|xs| - 1], skip)
  }

  /** What the second pass writes for the entry `k`: for a section that is
      not skipped, an empty line, `[k]` and its sub-key lines in key order. */
  ghost function SectionBlock(k: string, s: Slot, skip: bool): seq<string>
  {
    if !s.section || (skip && SlotEmpty(s)) then []
    else ["", "[" + k + "]"] + SubLines(s.sub, SortedKeys(s.sub.Keys), skip)
  }

  /** The second pass over the entries named in `ks`, in that order. */
  ghost function SectionLines(d: Doc, ks: seq<string>, skip: bool): seq<string>
    requires forall i :: 0 <= i < |ks| ==> ks[i] in d
  {
    if ks == [] then []
    else SectionLines(d, ks[..|ks| - 1], skip) + SectionBlock(ks[|ks| - 1], d[ks[|ks| - 1]], skip)
  }

  /** The lines `save` writes: both passes, each in key order. */
  ghost function SaveLines(d: Doc, skip: bool): seq<string>
  {
    var ks := SortedKeys(d.Keys);
    PlainLines(d, ks, skip) + SectionLines(d, ks, skip)
  }

  /** Each line followed by `\n`. */
  function Terminated(ls: seq<string>): string
  {
    if ls == [] then "" else Terminated(ls[..|ls| - 1]) + ls[|ls| - 1] + "\n"
  }

  /** The text `save` writes. */
  ghost function SaveText(d: Doc, skip: bool): string
  {
    Terminated(SaveLines(d, skip))
  }

  lemma {:induction false} TerminatedAppend(a: seq<string>, b: seq<string>)
    ensures Terminated(a + b) == Terminated(a) + Terminated(b)
    decreases |b|
  {
    if b != [] {
      var b' := b[..|b| - 1];
      assert (a + b)[..|a + b| - 1] == a + b';
      TerminatedAppend(a, b');
    } else {
      assert a + b == a;
    }
  }

  /** The text `save` writes is the first pass's text followed by the
      second's. */
  lemma SaveTextPasses(d: Doc, skip: bool)
    ensures var ks := SortedKeys(d.Keys);
      SaveText(d, skip) == Terminated(PlainLines(d, ks, skip)) + Terminated(SectionLines(d, ks, skip))
  {
    var ks := SortedKeys(d.Keys);
    TerminatedAppend(PlainLines(d, ks, skip), SectionLines(d, ks, skip));
  }

  lemma TerminatedOne(l: string)
    ensures Terminated([l]) == l + "\n"
  {
    assert [l][..0] == [];
  }

  /** The first pass's text grows by the entry's line. */
  lemma PlainLinesSnoc(d: Doc, done: seq<string>, k: string, skip: bool)
    requires forall i :: 0 <= i < |done| ==> done[i] in d
    requires k in d
    ensures Terminated(PlainLines(d, done + [k], skip)) == Terminated(PlainLines(d, done, skip)) +
      (if d[k].section || (skip && SlotEmpty(d[k])) then "" else KeyLine(k, d[k].raw) + "\n")
  {
    assert (done + [k])[..|done|] == done;
    TerminatedAppend(PlainLines(d, done, skip), PlainLine(d, k, skip));
    if !(d[k].section || (skip && SlotEmpty(d[k]))) {
      TerminatedOne(KeyLine(k, d[k].raw));
    }
  }

  /** The second pass's text grows by the entry's block. */
  lemma SectionLinesSnoc(d: Doc, done: seq<string>, k: string, skip: bool)
    requires forall i :: 0 <= i < |done| ==> done[i] in d
    requires k in d
    ensures Terminated(SectionLines(d, done + [k], skip))
      == Terminated(SectionLines(d, done, skip)) + Terminated(SectionBlock(k, d[k], skip))
  {
    assert (done + [k])[..|done|] == done;
    TerminatedAppend(SectionLines(d, done, skip), SectionBlock(k, d[k], skip));
  }

  /** `\n[k]\n` is the empty line and the header line. */
  lemma HeaderText(k: string)
    ensures Terminated(["", "[" + k + "]"]) == "\n[" + k + "]\n"
  {
    var head := ["", "[" + k + "]"];
    assert head[..1] == [""];
    TerminatedOne("");
    assert Terminated(head) == "\n" + ("[" + k + "]") + "\n";
  }

  /** A section block's text grows by the sub-key's line. */
  lemma SubLinesSnoc(k: string, m: map<string, string>, done: seq<string>, x: string, skip: bool)
    requires forall i :: 0 <= i < |done| ==> done[i] in m
    requires x in m
    ensures var head := ["", "[" + k + "]"];
      Terminated(head + SubLines(m, done + [x], skip)) == Terminated(head + SubLines(m, done, skip)) +
        (if skip && m[x] == "" then "" else KeyLine(x, m[x]) + "\n")
  {
    var head := ["", "[" + k + "]"];
    assert (done + [x])[..|done|] == done;
    assert head + SubLines(m, done + [x], skip) == (head + SubLines(m, done, skip)) + SubLine(m, x, skip);
    TerminatedAppend(head + SubLines(m, done, skip), SubLine(m, x, skip));
    if !(skip && m[x] == "") {
      TerminatedOne(KeyLine(x, m[x]));
    }
  }

  // ---------------------------------------------------------------------
  // Reading lines back.
  // ---------------------------------------------------------------------

  /** The lines `std::getline` reads from a text: split at each `\n`, with
      no empty line after a final `\n`. */
  function GetLines(text: string): seq<string>
    decreases |text|
  {
    if text == [] then []
    else
      match FindChar(text, '\n', 0)
      case None => [text]
      case Some(i) => [text[..i]] + GetLines(text[i + 1..])
  }

  predicate NoNewline(s: string)
  {
    forall i :: 0 <= i < |s| ==> s[i] != '\n'
  }

  /** Reading back what was written line by line gives the lines back. */
  lemma {:induction false} GetTerminated(ls: seq<string>)
    requires forall i :: 0 <= i < |ls| ==> NoNewline(ls[i])
    ensures GetLines(Terminated(ls)) == ls
    decreases |ls|
  {
    if ls != [] {
      var l := ls[0];
      var rest := ls[1..];
      assert ls == [l] + rest;
      TerminatedAppend([l], rest);
      assert Terminated([l]) == l + "\n" by {
        assert [l][..0] == [];
      }
      var t := Terminated(ls);
      assert t == l + "\n" + Terminated(rest);
      assert FindChar(t, '\n', 0) == Some(|l|) by {
        assert t[|l|] == '\n';
        assert forall i :: 0 <= i < |l| ==> t[i] == l[i];
      }
      assert t[..|l|] == l;
      assert t[|l| + 1..] == Terminated(rest);
      GetTerminated(rest);
    }
  }

  // ---------------------------------------------------------------------
  // load().
  // ---------------------------------------------------------------------

  /** The configuration being built and the current section name. */
  datatype LoadState = LoadState(doc: Doc, section: string)

  /** `line.find_first_not_of(" \t", from)`. */
  function FirstNonBlank(line: string, from: nat): (r: Option<nat>)
    ensures r.Some? ==> from <= r.value < |line| && line[r.value] != ' ' && line[r.value] != '\t'
    ensures forall i :: from <= i < |line| && (r.None? || i < r.value) ==> line[i] == ' ' || line[i] == '\t'
    decreases |line| - from
  {
    if from >= |line| then None
    else if line[from] != ' ' && line[from] != '\t' then Some(from)
    else FirstNonBlank(line, from + 1)
  }

  /** One turn of the `while (reader.getLine(line))` loop. */
  function Step(st: LoadState, line: string): LoadState
  {
    if line == [] then st
    else if line[0] == '[' && FindChar(line, ']', 0).Some? then
      LoadState(st.doc, line[1..FindChar(line, ']', 0).value])
    else
      match FirstNonBlank(line, 0)
      case None => st
      case Some(beg) =>
        if line[beg] == '#' || line[beg] == ';' then st
        else
          match FindChar(line, '=', beg)
          case None => st
          case Some(sep) =>
            var key := line[beg..sep];
            var value := line[sep + 1..];
            if st.section == [] then LoadState(AssignRoot(st.doc, key, value), st.section)
            else LoadState(AssignSub(st.doc, st.section, key, value), st.section)
  }

  /** What one line can do: only a header line changes the current section,
      and then nothing else; only a line holding an `=` changes the
      configuration; no entry is ever removed, and at most one is added. */
  lemma StepShape(st: LoadState, line: string)
    ensures var r := Step(st, line);
      && st.doc.Keys <= r.doc.Keys && |r.doc.Keys - st.doc.Keys| <= 1
      && (r.section != st.section ==> line != [] && line[0] == '[' && r.doc == st.doc)
      && ((forall i :: 0 <= i < |line| ==> line[i] != '=') ==> r.doc == st.doc)
  {
    var r := Step(st, line);
    if line != [] && !(line[0] == '[' && FindChar(line, ']', 0).Some?) {
      match FirstNonBlank(line, 0)
      case None =>
      case Some(beg) =>
        if line[beg] != '#' && line[beg] != ';' {
          match FindChar(line, '=', beg)
          case None =>
          case Some(sep) =>
            var name := if st.section == [] then line[beg..sep] else st.section;
            assert r.doc.Keys == st.doc.Keys + {name};
            AtMostOneNew(st.doc.Keys, name);
        }
    }
  }

  lemma AtMostOneNew(ks: set<string>, name: string)
    ensures |(ks + {name}) - ks| <= 1
  {
    assert (ks + {name}) - ks <= {name};
    if name in ks {
      assert (ks + {name}) - ks == {};
    } else {
      assert (ks + {name}) - ks == {name};
    }
  }

  /** The loop over all lines, from the state `st`. */
  function LoadFrom(st: LoadState, lines: seq<string>): LoadState
  {
    if lines == [] then st else Step(LoadFrom(st, lines[..|lines| - 1]), lines[|lines| - 1])
  }

  /** `ConfigImpl::load`: an empty configuration and no section to start with. */
  function LoadLines(lines: seq<string>): LoadState
  {
    LoadFrom(LoadState(map[], ""), lines)
  }

  lemma {:induction false} LoadFromAppend(st: LoadState, a: seq<string>, b: seq<string>)
    ensures LoadFrom(st, a + b) == LoadFrom(LoadFrom(st, a), b)
    decreases |b|
  {
    if b != [] {
      var b' := b[..|b| - 1];
      assert (a + b)[..|a + b| - 1] == a + b';
      LoadFromAppend(st, a, b');
    } else {
      assert a + b == a;
    }
  }

  predicate Blank(c: char)
  {
    c == ' ' || c == '\t'
  }

  /** Empty and whitespace-only lines change nothing. */
  lemma BlankLine(st: LoadState, line: string)
    requires forall i :: 0 <= i < |line| ==> Blank(line[i])
    ensures Step(st, line) == st
  {
    if line != [] {
      assert FirstNonBlank(line, 0).None?;
    }
  }

  /** Lines whose first non-blank character is `#` or `;` change nothing. */
  lemma CommentLine(st: LoadState, line: string, beg: nat)
    requires beg < |line| && (line[beg] == '#' || line[beg] == ';')
    requires forall i :: 0 <= i < beg ==> Blank(line[i])
    ensures Step(st, line) == st
  {
    assert line[0] != '[';
    assert FirstNonBlank(line, 0) == Some(beg);
  }

  /** A line with no `=` (and no section header) changes nothing. */
  lemma NoAssignmentLine(st: LoadState, line: string)
    requires forall i :: 0 <= i < |line| ==> line[i] != '='
    requires line == [] || line[0] != '[' || forall i :: 0 <= i < |line| ==> line[i] != ']'
    ensures Step(st, line) == st
  {
    if line != [] && FirstNonBlank(line, 0).Some? {
      var beg := FirstNonBlank(line, 0).value;
      assert FindChar(line, '=', beg).None?;
    }
  }

  /** A line starting with `[` that holds a `]` switches to the section named
      between the `[` and the first `]`, and changes nothing else. */
  lemma HeaderLine(st: LoadState, line: string, e: nat)
    requires 0 < e < |line| && line[0] == '[' && line[e] == ']'
    requires forall i :: 0 <= i < e ==> line[i] != ']'
    ensures Step(st, line) == LoadState(st.doc, line[1..e])
  {
    assert FindChar(line, ']', 0) == Some(e);
  }

  /** A key line: the key runs from the first non-blank character to the
      first `=`, the value is the rest of the line; it goes to the root when
      the current section name is empty and to that section otherwise. */
  lemma AssignmentLine(st: LoadState, line: string, beg: nat, sep: nat)
    requires beg <= sep < |line| && line[sep] == '='
    requires forall i :: 0 <= i < beg ==> Blank(line[i])
    requires !Blank(line[beg]) && line[beg] != '#' && line[beg] != ';'
    requires forall i :: beg <= i < sep ==> line[i] != '='
    requires line[0] != '[' || forall i :: 0 <= i < |line| ==> line[i] != ']'
    ensures var key, value := line[beg..sep], line[sep + 1..];
      Step(st, line) ==
        if st.section == [] then LoadState(AssignRoot(st.doc, key, value), st.section)
        else LoadState(AssignSub(st.doc, st.section, key, value), st.section)
  {
    assert FirstNonBlank(line, 0) == Some(beg);
    assert FindChar(line, '=', beg) == Some(sep);
  }

  /** Lines that each leave a state unchanged leave it unchanged together. */
  lemma {:induction false} IgnoredLines(st: LoadState, lines: seq<string>)
    requires forall i :: 0 <= i < |lines| ==> Step(st, lines[i]) == st
    ensures LoadFrom(st, lines) == st
    decreases |lines|
  {
    if lines != [] {
      IgnoredLines(st, lines[..|lines| - 1]);
    }
  }

  /** The lines of the `SkipComments` case, whatever text follows each
      comment marker: comments, indented comments and an empty line add
      nothing, and the one key line adds one entry. */
  lemma SkipCommentsExample(lines: seq<string>, a: string, b: string)
    requires lines == ["#" + a, ";" + b, " #" + a, " ;" + b, "", "key=true"]
    ensures LoadLines(lines).doc == map["key" := Slot("true", false, map[])]
    ensures DocCount(LoadLines(lines).doc) == 1
  {
    var st := LoadState(map[], "");
    CommentLine(st, lines[0], 0);
    CommentLine(st, lines[1], 0);
    CommentLine(st, lines[2], 1);
    CommentLine(st, lines[3], 1);
    BlankLine(st, lines[4]);
    IgnoredLines(st, lines[..5]);
    AssignmentLine(st, lines[5], 0, 3);
    assert lines[5][0..3] == "key" && lines[5][4..] == "true";
    assert lines[..6][..5] == lines[..5];
    DocCountAdd(map[], "key", Slot("true", false, map[]));
  }

  // ---------------------------------------------------------------------
  // save() then load().
  // ---------------------------------------------------------------------

  /** A name that reads back as a key: no `=` or newline in it, and no
      leading blank, `#`, `;` or `[`. */
  predicate SafeKey(k: string)
  {
    (forall i :: 0 <= i < |k| ==> k[i] != '=' && k[i] != '\n')
    && (k == [] || (!Blank(k[0]) && k[0] != '#' && k[0] != ';' && k[0] != '['))
  }

  /** A name that reads back as a section: not empty, no `]` or newline in it. */
  predicate SafeSection(k: string)
  {
    k != [] && forall i :: 0 <= i < |k| ==> k[i] != ']' && k[i] != '\n'
  }

  /** Every name in `d` reads back. */
  predicate Saveable(d: Doc)
  {
    forall k :: k in d ==>
      if d[k].section then SafeSection(k) && forall x :: x in d[k].sub ==> SafeKey(x)
      else SafeKey(k)
  }

  /** The sub-keys whose lines the second pass writes. */
  function KeptSubs(s: Slot, skip: bool): map<string, string>
  {
    map x | x in s.sub && !(skip && s.sub[x] == "") :: s.sub[x]
  }

  /** The entries `load` gets back from what `save` wrote. */
  predicate Kept(s: Slot, skip: bool)
  {
    if s.section then KeptSubs(s, skip) != map[] else !(skip && s.raw == "")
  }

  /** What `load` gets back for an entry: a plain entry keeps its raw text
      and loses its sub-keys; a section loses its own raw text and keeps the
      sub-keys that were written. */
  function Restored(s: Slot, skip: bool): Slot
  {
    if s.section then Slot("", true, KeptSubs(s, skip)) else Slot(s.raw, false, map[])
  }

  /** The configuration `load` gets back from what `save` wrote: sections
      left without a single written sub-key are lost. */
  function Reloaded(d: Doc, skip: bool): Doc
  {
    map k | k in d && Kept(d[k], skip) :: Restored(d[k], skip)
  }

  /** A key line written by `save` reads back as that assignment. */
  lemma KeyLineStep(st: LoadState, k: string, raw: string)
    requires SafeKey(k)
    ensures Step(st, KeyLine(k, raw)) ==
      if st.section == [] then LoadState(AssignRoot(st.doc, k, raw), st.section)
      else LoadState(AssignSub(st.doc, st.section, k, raw), st.section)
  {
    var line := KeyLine(k, raw);
    assert line[|k|] == '=';
    assert forall i :: 0 <= i < |k| ==> line[i] == k[i];
    assert line[0] != '[';
    AssignmentLine(st, line, 0, |k|);
    assert line[0..|k|] == k && line[|k| + 1..] == raw;
  }

  /** A section header written by `save` reads back as that section. */
  lemma HeaderStep(st: LoadState, k: string)
    requires SafeSection(k)
    ensures Step(st, "[" + k + "]") == LoadState(st.doc, k)
  {
    var line := "[" + k + "]";
    assert forall i :: 0 < i <= |k| ==> line[i] == k[i - 1];
    HeaderLine(st, line, |k| + 1);
    assert line[1..|k| + 1] == k;
  }

  /** The plain entries among those named in `ks`. */
  function PlainPart(d: Doc, ks: seq<string>, skip: bool): Doc
  {
    map k | k in ks && k in d && !d[k].section && Kept(d[k], skip) :: Restored(d[k], skip)
  }

  /** Reading the first pass back gives the plain entries, at the root. */
  lemma {:induction false} LoadPlain(d: Doc, ks: seq<string>, skip: bool)
    requires Saveable(d) && Distinct(ks)
    requires forall i :: 0 <= i < |ks| ==> ks[i] in d
    ensures LoadLines(PlainLines(d, ks, skip)) == LoadState(PlainPart(d, ks, skip), "")
    decreases |ks|
  {
    if ks == [] {
      assert PlainPart(d, ks, skip) == map[];
    } else {
      var ks', k := ks[..|ks| - 1], ks[|ks| - 1];
      assert Distinct(ks');
      LoadPlain(d, ks', skip);
      var p := PlainPart(d, ks', skip);
      LoadFromAppend(LoadState(map[], ""), PlainLines(d, ks', skip), PlainLine(d, k, skip));
      PlainPartSnoc(d, ks, skip);
      if PlainLine(d, k, skip) != [] {
        var line := KeyLine(k, d[k].raw);
        assert PlainLine(d, k, skip) == [line];
        assert [line][..0] == [];
        KeyLineStep(LoadState(p, ""), k, d[k].raw);
      }
    }
  }

  lemma PlainPartSnoc(d: Doc, ks: seq<string>, skip: bool)
    requires Distinct(ks) && ks != []
    requires forall i :: 0 <= i < |ks| ==> ks[i] in d
    ensures var k := ks[|ks| - 1];
      var p := PlainPart(d, ks[..|ks| - 1], skip);
      k !in p
      && PlainPart(d, ks, skip) == if PlainLine(d, k, skip) == [] then p else p[k := Restored(d[k], skip)]
  {
    var ks', k := ks[..|ks| - 1], ks[|ks| - 1];
    assert k !in ks';
    assert forall x :: x in ks <==> x in ks' || x == k;
  }

  /** The sub-keys among those named in `xs` whose lines are written. */
  function KeptOver(m: map<string, string>, xs: seq<string>, skip: bool): map<string, string>
  {
    map x | x in xs && x in m && !(skip && m[x] == "") :: m[x]
  }

  /** Reading the sub-key lines of section `k` back puts them into `k`, which
      exists afterwards exactly when at least one line was read. */
  lemma {:induction false} LoadSubs(doc: Doc, k: string, m: map<string, string>, xs: seq<string>, skip: bool)
    requires k != [] && k !in doc && Distinct(xs)
    requires forall i :: 0 <= i < |xs| ==> xs[i] in m && SafeKey(xs[i])
    ensures var kept := KeptOver(m, xs, skip);
      LoadFrom(LoadState(doc, k), SubLines(m, xs, skip))
        == LoadState(if kept == map[] then doc else doc[k := Slot("", true, kept)], k)
    decreases |xs|
  {
    if xs == [] {
      assert KeptOver(m, xs, skip) == map[];
    } else {
      var xs', x := xs[..|xs| - 1], xs[|xs| - 1];
      assert Distinct(xs');
      LoadSubs(doc, k, m, xs', skip);
      var before := KeptOver(m, xs', skip);
      var st := LoadState(if before == map[] then doc else doc[k := Slot("", true, before)], k);
      LoadFromAppend(LoadState(doc, k), SubLines(m, xs', skip), SubLine(m, x, skip));
      KeptOverSnoc(m, xs, skip);
      if SubLine(m, x, skip) != [] {
        var line := KeyLine(x, m[x]);
        assert SubLine(m, x, skip) == [line];
        assert [line][..0] == [];
        KeyLineStep(st, x, m[x]);
        assert LoadFrom(st, [line]) == Step(st, line);
        AssignSubInto(doc, k, before, x, m[x]);
      }
    }
  }

  /** Assigning a sub-key of a fresh or partly filled section. */
  lemma AssignSubInto(doc: Doc, k: string, before: map<string, string>, x: string, v: string)
    requires k !in doc
    ensures AssignSub(if before == map[] then doc else doc[k := Slot("", true, before)], k, x, v)
      == doc[k := Slot("", true, before[x := v])]
  {
    var start := if before == map[] then doc else doc[k := Slot("", true, before)];
    var e := SlotIndex(DocIndex(start, k)[k], x);
    assert DocIndex(start, k)[k] == Slot("", before != map[], before);
    assert e.raw == "" && e.sub[x := v] == before[x := v];
    if before != map[] {
      assert start[k := Slot("", true, before[x := v])] == doc[k := Slot("", true, before[x := v])];
    }
  }

  lemma KeptOverSnoc(m: map<string, string>, xs: seq<string>, skip: bool)
    requires Distinct(xs) && xs != []
    requires forall i :: 0 <= i < |xs| ==> xs[i] in m
    ensures var x := xs[|xs| - 1];
      var before := KeptOver(m, xs[..|xs| - 1], skip);
      x !in before
      && KeptOver(m, xs, skip) == if SubLine(m, x, skip) == [] then before else before[x := m[x]]
  {
    var xs', x := xs[..|xs| - 1], xs[|xs| - 1];
    assert x !in xs';
    assert forall y :: y in xs <==> y in xs' || y == x;
  }

  /** The written sub-keys of a section, visited in key order. */
  lemma KeptInOrder(s: Slot, skip: bool)
    ensures KeptOver(s.sub, SortedKeys(s.sub.Keys), skip) == KeptSubs(s, skip)
  {
  }

  /** The sections among those named in `ks` that `load` gets back. */
  function SectionPart(d: Doc, ks: seq<string>, skip: bool): Doc
  {
    map k | k in ks && k in d && d[k].section && Kept(d[k], skip) :: Restored(d[k], skip)
  }

  /** Reading one section block back adds that section when it was kept. */
  lemma LoadBlock(st: LoadState, d: Doc, k: string, skip: bool)
    requires Saveable(d) && k in d && (d[k].section ==> k !in st.doc)
    ensures LoadFrom(st, SectionBlock(k, d[k], skip)).doc
      == if d[k].section && Kept(d[k], skip) then st.doc[k := Restored(d[k], skip)] else st.doc
  {
    var s := d[k];
    if SectionBlock(k, s, skip) != [] {
      var xs := SortedKeys(s.sub.Keys);
      SortedKeysDistinct(s.sub.Keys);
      var head := ["", "[" + k + "]"];
      LoadFromAppend(st, head, SubLines(s.sub, xs, skip));
      assert head[..1] == [""] && [""][..0] == [];
      BlankLine(st, "");
      assert LoadFrom(st, [""]) == Step(LoadFrom(st, []), "") == st;
      HeaderStep(st, k);
      assert LoadFrom(st, head) == Step(LoadFrom(st, [""]), "[" + k + "]");
      LoadSubs(st.doc, k, s.sub, xs, skip);
      KeptInOrder(s, skip);
    } else if s.section {
      assert SlotEmpty(s) && KeptSubs(s, skip) == map[];
    }
  }

  /** Reading the second pass back adds the kept sections. */
  lemma {:induction false} LoadSections(st: LoadState, d: Doc, ks: seq<string>, skip: bool)
    requires Saveable(d) && Distinct(ks)
    requires forall i :: 0 <= i < |ks| ==> ks[i] in d && (d[ks[i]].section ==> ks[i] !in st.doc)
    ensures LoadFrom(st, SectionLines(d, ks, skip)).doc == st.doc + SectionPart(d, ks, skip)
    decreases |ks|
  {
    if ks == [] {
      assert SectionPart(d, ks, skip) == map[];
      assert st.doc + map[] == st.doc;
    } else {
      var ks', k := ks[..|ks| - 1], ks[|ks| - 1];
      assert Distinct(ks');
      LoadSections(st, d, ks', skip);
      var mid := LoadFrom(st, SectionLines(d, ks', skip));
      LoadFromAppend(st, SectionLines(d, ks', skip), SectionBlock(k, d[k], skip));
      SectionPartSnoc(d, ks, skip);
      var part := SectionPart(d, ks', skip);
      assert mid.doc == st.doc + part;
      assert d[k].section ==> k !in mid.doc;
      LoadBlock(mid, d, k, skip);
      if d[k].section && Kept(d[k], skip) {
        UnionUpdate(st.doc, part, k, Restored(d[k], skip));
      }
    }
  }

  lemma UnionUpdate(a: Doc, b: Doc, k: string, v: Slot)
    ensures (a + b)[k := v] == a + b[k := v]
  {
  }

  lemma SectionPartSnoc(d: Doc, ks: seq<string>, skip: bool)
    requires Distinct(ks) && ks != []
    requires forall i :: 0 <= i < |ks| ==> ks[i] in d
    ensures var k := ks[|ks| - 1];
      var p := SectionPart(d, ks[..|ks| - 1], skip);
      k !in p
      && SectionPart(d, ks, skip) == if d[k].section && Kept(d[k], skip) then p[k := Restored(d[k], skip)] else p
  {
    var ks', k := ks[..|ks| - 1], ks[|ks| - 1];
    assert k !in ks';
    assert forall x :: x in ks <==> x in ks' || x == k;
  }

  /** Names are written as they are, so a name `Saveable` excludes does not
      survive: a root key `c=b` (the key `a=b`, say) with raw text `v` is
      written as the line `c=b=v`, which loads back as the key `c` with raw
      text `b=v`. */
  lemma EqualsInKeyIsLossy(c: char, b: string, v: string)
    requires 'a' <= c <= 'z'
    ensures var k := [c] + "=" + b;
      && !Saveable(map[k := Slot(v, false, map[])])
      && SaveLines(map[k := Slot(v, false, map[])], false) == [k + "=" + v]
      && LoadLines([k + "=" + v]).doc == map[[c] := Slot(b + "=" + v, false, map[])]
  {
    var k := [c] + "=" + b;
    assert k[1] == '=';
    Unsaveable(k, v);
    SaveOnePlain(k, v);
    var tail := b + "=" + v;
    assert (([c] + "=") + b) + "=" == ([c] + "=") + (b + "=");
    assert k + "=" + v == ([c] + "=") + tail;
    OneCharKey(c, tail);
  }

  /** The line `c=tail` loads as the key `c` with raw text `tail`. */
  lemma OneCharKey(c: char, tail: string)
    requires 'a' <= c <= 'z'
    ensures LoadLines([([c] + "=") + tail]).doc == map[[c] := Slot(tail, false, map[])]
  {
    var line := ([c] + "=") + tail;
    assert line[0] == c && line[1] == '=' && line[..1] == [c] && line[2..] == tail;
    LoadOneLine(line, 1);
  }

  /** A plain key holding `=` makes a configuration unsaveable. */
  lemma Unsaveable(k: string, v: string)
    requires 1 < |k| && k[1] == '='
    ensures !Saveable(map[k := Slot(v, false, map[])])
  {
    var d := map[k := Slot(v, false, map[])];
    assert k in d && !d[k].section && !SafeKey(k);
  }

  /** A configuration of one plain entry is saved as its one key line. */
  lemma SaveOnePlain(k: string, v: string)
    ensures SaveLines(map[k := Slot(v, false, map[])], false) == [KeyLine(k, v)]
  {
    var d := map[k := Slot(v, false, map[])];
    var ks := SortedKeys(d.Keys);
    assert k in ks;
    assert ks == [k];
    assert ks[..0] == [];
    assert PlainLines(d, ks, false) == [] + PlainLine(d, k, false);
    assert SectionLines(d, ks, false) == [] + SectionBlock(k, d[k], false);
  }

  /** A file of one plain key line, whose first `=` is at `sep`, loads as one
      root entry. */
  lemma LoadOneLine(line: string, sep: nat)
    requires 0 < sep < |line| && line[sep] == '='
    requires !Blank(line[0]) && line[0] != '#' && line[0] != ';' && line[0] != '['
    requires forall i :: 0 <= i < sep ==> line[i] != '='
    ensures LoadLines([line]).doc == map[line[..sep] := Slot(line[sep + 1..], false, map[])]
  {
    var st := LoadState(map[], "");
    var ls: seq<string> := [line];
    assert ls[..|ls| - 1] == [] && ls[|ls| - 1] == line;
    assert LoadFrom(st, ls) == Step(LoadFrom(st, ls[..|ls| - 1]), ls[|ls| - 1]);
    assert LoadFrom(st, ls[..|ls| - 1]) == st;
    AssignmentLine(st, line, 0, sep);
    assert line[0..sep] == line[..sep];
    var r := AssignRoot(map[], line[..sep], line[sep + 1..]);
    assert r == map[line[..sep] := Slot(line[sep + 1..], false, map[])];
  }

  /** Save/load round trip: loading the lines `save` writes gives back every
      plain entry with its raw text and every section with the sub-keys
      written for it; with `SaveFlag_SkipEmptyKeys`, empty entries and
      empty sub-keys are dropped. */
  lemma SaveLoad(d: Doc, skip: bool)
    requires Saveable(d)
    ensures LoadLines(SaveLines(d, skip)).doc == Reloaded(d, skip)
  {
    var ks := SortedKeys(d.Keys);
    SortedKeysDistinct(d.Keys);
    LoadPlain(d, ks, skip);
    var p := PlainPart(d, ks, skip);
    LoadFromAppend(LoadState(map[], ""), PlainLines(d, ks, skip), SectionLines(d, ks, skip));
    PlainPartKeys(d, ks, skip);
    LoadSections(LoadState(p, ""), d, ks, skip);
    PartsCover(d, ks, skip);
  }

  lemma PlainPartKeys(d: Doc, ks: seq<string>, skip: bool)
    ensures forall k :: k in PlainPart(d, ks, skip) ==> k in d && !d[k].section
  {
  }

  lemma PartsCover(d: Doc, ks: seq<string>, skip: bool)
    requires forall k :: k in ks <==> k in d
    ensures PlainPart(d, ks, skip) + SectionPart(d, ks, skip) == Reloaded(d, skip)
  {
  }

  /** A configuration whose sections all have written sub-keys and no raw
      text of their own, and whose plain entries have no sub-keys, comes
      back unchanged (every plain entry must be non-empty when skipping). */
  lemma SaveLoadIdentity(d: Doc, skip: bool)
    requires Saveable(d)
    requires forall k :: k in d ==>
      if d[k].section then d[k].raw == "" && KeptSubs(d[k], skip) == d[k].sub && d[k].sub != map[]
      else d[k].sub == map[] && !(skip && d[k].raw == "")
    ensures LoadLines(SaveLines(d, skip)).doc == d
  {
    SaveLoad(d, skip);
  }

  /** Save/load round trip through the text: with no newline in any name
      or raw text, the lines `std::getline` reads from the written text load
      back as `Reloaded(d, skip)`. */
  lemma SaveTextLoad(d: Doc, skip: bool)
    requires Saveable(d)
    requires forall k :: k in d ==> NoNewline(k) && NoNewline(d[k].raw)
    requires forall k, x :: k in d && x in d[k].sub ==> NoNewline(x) && NoNewline(d[k].sub[x])
    ensures LoadLines(GetLines(SaveText(d, skip))).doc == Reloaded(d, skip)
  {
    SaveLinesNoNewline(d, skip);
    GetTerminated(SaveLines(d, skip));
    SaveLoad(d, skip);
  }

  lemma SaveLinesNoNewline(d: Doc, skip: bool)
    requires forall k :: k in d ==> NoNewline(k) && NoNewline(d[k].raw)
    requires forall k, x :: k in d && x in d[k].sub ==> NoNewline(x) && NoNewline(d[k].sub[x])
    ensures forall i :: 0 <= i < |SaveLines(d, skip)| ==> NoNewline(SaveLines(d, skip)[i])
  {
    var ks := SortedKeys(d.Keys);
    PlainLinesNoNewline(d, ks, skip);
    SectionLinesNoNewline(d, ks, skip);
  }

  lemma {:induction false} PlainLinesNoNewline(d: Doc, ks: seq<string>, skip: bool)
    requires forall i :: 0 <= i < |ks| ==> ks[i] in d
    requires forall k :: k in d ==> NoNewline(k) && NoNewline(d[k].raw)
    ensures forall i :: 0 <= i < |PlainLines(d, ks, skip)| ==> NoNewline(PlainLines(d, ks, skip)[i])
    decreases |ks|
  {
    if ks != [] {
      PlainLinesNoNewline(d, ks[..|ks| - 1], skip);
    }
  }

  lemma {:induction false} SubLinesNoNewline(m: map<string, string>, xs: seq<string>, skip: bool)
    requires forall i :: 0 <= i < |xs| ==> xs[i] in m
    requires forall x :: x in m ==> NoNewline(x) && NoNewline(m[x])
    ensures forall i :: 0 <= i < |SubLines(m, xs, skip)| ==> NoNewline(SubLines(m, xs, skip)[i])
    decreases |xs|
  {
    if xs != [] {
      SubLinesNoNewline(m, xs[..|xs| - 1], skip);
    }
  }

  lemma {:induction false} SectionLinesNoNewline(d: Doc, ks: seq<string>, skip: bool)
    requires forall i :: 0 <= i < |ks| ==> ks[i] in d
    requires forall k :: k in d ==> NoNewline(k) && NoNewline(d[k].raw)
    requires forall k, x :: k in d && x in d[k].sub ==> NoNewline(x) && NoNewline(d[k].sub[x])
    ensures forall i :: 0 <= i < |SectionLines(d, ks, skip)| ==> NoNewline(SectionLines(d, ks, skip)[i])
    decreases |ks|
  {
    if ks != [] {
      var k := ks[|ks| - 1];
      SectionLinesNoNewline(d, ks[..|ks| - 1], skip);
      BlockNoNewline(k, d[k], skip);
      LinesNoNewline(SectionLines(d, ks[..|ks| - 1], skip), SectionBlock(k, d[k], skip));
    }
  }

  lemma BlockNoNewline(k: string, s: Slot, skip: bool)
    requires NoNewline(k)
    requires forall x :: x in s.sub ==> NoNewline(x) && NoNewline(s.sub[x])
    ensures forall i :: 0 <= i < |SectionBlock(k, s, skip)| ==> NoNewline(SectionBlock(k, s, skip)[i])
  {
    if s.section && !(skip && SlotEmpty(s)) {
      SubLinesNoNewline(s.sub, SortedKeys(s.sub.Keys), skip);
      var h := "[" + k + "]";
      assert forall i :: 0 < i < |h| - 1 ==> h[i] == k[i - 1];
      LinesNoNewline(["", h], SubLines(s.sub, SortedKeys(s.sub.Keys), skip));
    }
  }

  lemma LinesNoNewline(a: seq<string>, b: seq<string>)
    requires forall i :: 0 <= i < |a| ==> NoNewline(a[i])
    requires forall i :: 0 <= i < |b| ==> NoNewline(b[i])
    ensures forall i :: 0 <= i < |a + b| ==> NoNewline((a + b)[i])
  {
  }
}
