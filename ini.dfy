/** `ConfigImpl`: the ordered map from names to `Entry<0>` entries, each
    held by value, with `operator[]`, `count()`, `save()` and `load()`. The file behind the
    reader and the writer is a parameter: `load` is given the lines
    `getLine` would return, `save` is told whether the writer opened and
    returns the text it would write. */
module Ini {
  import opened Wrappers
  import opened Lexical
  import opened Scalars
  import opened Arrays
  import opened Document

  /** The methods that change the entries are the in-place forms of the
      `Document` functions: `Index` of `DocIndex`, `Set` of `AssignRoot`,
      `SetSub` of `AssignSub`, and `LoadLine` of `Step`. Each body does the
      update step by step, and its `ensures` proves it equal to the function;
      the functions carry the definitions and the lemmas. */
  class Config {
    /** `m_entries`: the entries, held by value. */
    var entries: Doc

    constructor ()
      ensures entries == map[]
    {
      entries := map[];
    }

    /** `operator[](name)`: the entry is created, empty, only when absent. */
    method Index(name: string)
      modifies this
      ensures name in entries
      ensures entries == DocIndex(old(entries), name)
    {
      if name !in entries {
        entries := entries[name := NewSlot];
      }
    }

    /** `config[key] = v`: `operator[](key)`, then `Entry<0>::operator=`. */
    method Set(key: string, v: Scalar)
      requires WellTyped(v)
      modifies this
      ensures key in entries && entries[key].raw == Encode(v) && !entries[key].section
      ensures entries == AssignRoot(old(entries), key, Encode(v))
    {
      Index(key);
      var r := ToRawValue(v);
      entries := entries[key := entries[key].(raw := r, section := false)];
    }

    /** `config[sec][key] = v`: `operator[](sec)`, `Entry<0>::operator[](key)`,
        then `Entry<1>::operator=`. */
    method SetSub(sec: string, key: string, v: Scalar)
      requires WellTyped(v)
      modifies this
      ensures sec in entries && entries[sec].section && key in entries[sec].sub
      ensures entries[sec].sub[key] == Encode(v)
      ensures entries == AssignSub(old(entries), sec, key, Encode(v))
    {
      Index(sec);
      var e := SlotIndex(entries[sec], key);
      var r := ToRawValue(v);
      entries := entries[sec := e.(sub := e.sub[key := r])];
    }

    /** `count()`: the sum of the entries' counts. */
    method Count() returns (n: nat)
      ensures n == DocCount(entries)
    {
      n := 0;
      var rest := entries.Keys;
      while rest != {}
        invariant rest <= entries.Keys
        invariant n + CountOver(entries, rest) == DocCount(entries)
        decreases rest
      {
        var k := FirstKey(rest);
        CountOverRemove(entries, rest, k);
        n := n + SlotCount(entries[k]);
        rest := rest - {k};
      }
    }

    /** `save(fileName, flags)`: nothing is written and `false` comes back
        when the writer did not open; otherwise the plain entries, then the
        sections, each in key order. */
    method Save(isOpen: bool, flags: SaveFlags) returns (ok: bool, out: string)
      ensures !isOpen ==> !ok && out == ""
      ensures isOpen ==> ok && out == SaveText(entries, Skips(flags))
    {
      if !isOpen {
        return false, "";
      }
      var skip := flags.SaveFlagSkipEmptyKeys?;
      var plain := PlainPass(skip);
      var sections := SectionPass(skip);
      SaveTextPasses(entries, skip);
      ok, out := true, plain + sections;
    }

    /** The first loop of `save`: `name=raw` for each plain entry. */
    method PlainPass(skip: bool) returns (out: string)
      ensures out == Terminated(PlainLines(entries, SortedKeys(entries.Keys), skip))
    {
      ghost var done: seq<string> := [];
      var rest := entries.Keys;
      out := "";
      while rest != {}
        invariant rest <= entries.Keys
        invariant done + SortedKeys(rest) == SortedKeys(entries.Keys)
        invariant forall i :: 0 <= i < |done| ==> done[i] in entries
        invariant out == Terminated(PlainLines(entries, done, skip))
        decreases rest
      {
        var k := FirstKey(rest);
        var e := entries[k];
        PlainLinesSnoc(entries, done, k, skip);
        if !e.section && !(skip && SlotEmpty(e)) {
          out := out + (KeyLine(k, e.raw) + "\n");
        }
        TraversalStep(done, rest, entries.Keys, k);
        done := done + [k];
        rest := rest - {k};
        VisitedKeys(done, rest, entries.Keys);
      }
      assert SortedKeys(rest) == [];
      assert done == SortedKeys(entries.Keys);
    }

    /** The second loop of `save`: a block for each section. */
    method SectionPass(skip: bool) returns (out: string)
      ensures out == Terminated(SectionLines(entries, SortedKeys(entries.Keys), skip))
    {
      ghost var done: seq<string> := [];
      var rest := entries.Keys;
      out := "";
      while rest != {}
        invariant rest <= entries.Keys
        invariant done + SortedKeys(rest) == SortedKeys(entries.Keys)
        invariant forall i :: 0 <= i < |done| ==> done[i] in entries
        invariant out == Terminated(SectionLines(entries, done, skip))
        decreases rest
      {
        var k := FirstKey(rest);
        var block := WriteBlock(k, entries[k], skip);
        SectionLinesSnoc(entries, done, k, skip);
        out := out + block;
        TraversalStep(done, rest, entries.Keys, k);
        done := done + [k];
        rest := rest - {k};
        VisitedKeys(done, rest, entries.Keys);
      }
      assert SortedKeys(rest) == [];
      assert done == SortedKeys(entries.Keys);
    }

    /** One turn of the second loop: nothing for a plain entry or a skipped
        section, else `\n[name]\n` and the sub-key lines in key order. */
    static method WriteBlock(k: string, e: Slot, skip: bool) returns (out: string)
      ensures out == Terminated(SectionBlock(k, e, skip))
    {
      if !e.section || (skip && SlotEmpty(e)) {
        return "";
      }
      ghost var head := ["", "[" + k + "]"];
      HeaderText(k);
      out := "\n[" + k + "]\n";
      ghost var done: seq<string> := [];
      var rest := e.sub.Keys;
      assert head + SubLines(e.sub, done, skip) == head;
      while rest != {}
        invariant rest <= e.sub.Keys
        invariant done + SortedKeys(rest) == SortedKeys(e.sub.Keys)
        invariant forall i :: 0 <= i < |done| ==> done[i] in e.sub
        invariant out == Terminated(head + SubLines(e.sub, done, skip))
        decreases rest
      {
        var x := FirstKey(rest);
        SubLinesSnoc(k, e.sub, done, x, skip);
        if !(skip && e.sub[x] == "") {
          out := out + (KeyLine(x, e.sub[x]) + "\n");
        }
        TraversalStep(done, rest, e.sub.Keys, x);
        done := done + [x];
        rest := rest - {x};
        VisitedKeys(done, rest, e.sub.Keys);
      }
      assert SortedKeys(rest) == [];
      assert done == SortedKeys(e.sub.Keys);
    }

    /** `load(file)`, on the lines the reader gives: empty lines, comment
        lines and lines without `=` are skipped, `[name]` switches the
        current section, and `key=value` assigns the raw value to the root
        entry or to the current section's sub-key. */
    static method Load(lines: seq<string>) returns (c: Config)
      ensures fresh(c)
      ensures c.entries == LoadLines(lines).doc
    {
      c := new Config();
      var section := "";
      var i := 0;
      while i < |lines|
        invariant 0 <= i <= |lines|
        invariant fresh(c)
        invariant LoadFrom(LoadState(map[], ""), lines[..i]) == LoadState(c.entries, section)
      {
        assert lines[..i + 1][..i] == lines[..i];
        section := c.LoadLine(lines[i], section);
        i := i + 1;
      }
      assert lines[..|lines|] == lines;
    }

    /** One turn of the loop of `load`, with `section` the current section
        name before the line and `next` the one after it. */
    method LoadLine(line: string, section: string) returns (next: string)
      modifies this
      ensures LoadState(entries, next) == Step(LoadState(old(entries), section), line)
    {
      next := section;
      if line == [] {
      } else if line[0] == '[' && FindChar(line, ']', 0).Some? {
        next := line[1..FindChar(line, ']', 0).value];
      } else {
        match FirstNonBlank(line, 0)
        case None =>
        case Some(beg) =>
          if line[beg] != '#' && line[beg] != ';' {
            match FindChar(line, '=', beg)
            case None =>
            case Some(sep) =>
              var key := line[beg..sep];
              var value := line[sep + 1..];
              if section == [] {
                Set(key, RawVal(value));
              } else {
                SetSub(section, key, RawVal(value));
              }
          }
      }
    }
  }
}
