/** The objects a configuration is made of: `Value` (which `Entry<1>`, the
    sub-key cell, is: it only forwards its assignment) and `Entry<0>`, the
    top-level entry that is either a plain value or a section. */
module Cells {
  import opened Transcode
  import opened Scalars
  import opened Arrays
  import opened Document

  /** `value<T>(defaultValue)` on the raw text `raw`. */
  function ValueOr(raw: string, k: Kind, d: Scalar): (r: Scalar)
    requires KindOf(d) == k
    ensures KindOf(r) == k
  {
    if raw == "" then d else Decode(k, raw)
  }

  /** An empty cell reads as the default; a cell assigned a bool, an integer,
      a backslash-free text or a non-empty raw text reads back as that value,
      whatever the default. */
  lemma ReadBack(v: Scalar, d: Scalar)
    requires WellTyped(v) && Lossless(v) && KindOf(d) == KindOf(v)
    ensures ValueOr("", KindOf(v), d) == d
    ensures v != RawVal("") ==> ValueOr(Encode(v), KindOf(v), d) == v
  {
    ScalarRoundTrip(v);
  }

  /** An assigned empty text (`std::string{}`) makes the cell non-empty and
      reads back as the empty text. */
  lemma EmptyTextAssigned(d: Scalar)
    requires d.TextVal?
    ensures Encode(TextVal("")) == "\"\""
    ensures ValueOr(Encode(TextVal("")), TextKind, d) == TextVal("")
  {
    EmptyText();
  }

  /** `Value`, and `Entry<1>`. */
  class Value {
    var raw: string

    constructor ()
      ensures raw == "" && Empty()
    {
      raw := "";
    }

    /** `operator=(v)` for a scalar. */
    method Assign(v: Scalar)
      requires WellTyped(v)
      modifies this
      ensures raw == Encode(v)
      ensures Empty() <==> v == RawVal("")
    {
      raw := ToRawValue(v);
    }

    /** `operator=(container)`. */
    method AssignArray(xs: seq<Scalar>)
      requires forall i :: 0 <= i < |xs| ==> WellTyped(xs[i])
      modifies this
      ensures raw == EncodeArray(xs) && !Empty()
    {
      raw := ToRawArray(xs);
    }

    /** `value<T>(d)`: the default for an empty cell, else the decoded raw
        text, of the requested kind either way. */
    function Get(k: Kind, d: Scalar): (r: Scalar)
      reads this
      requires KindOf(d) == k
      ensures KindOf(r) == k
      ensures Empty() ==> r == d
      ensures !Empty() ==> r == Decode(k, raw)
    {
      ValueOr(raw, k, d)
    }

    /** `array<T>()`. */
    method Array(k: Kind) returns (out: seq<Scalar>)
      ensures out == DecodeArray(k, raw)
    {
      out := FromRawArray(k, raw);
    }

    /** `clear()`. */
    method Clear()
      modifies this
      ensures raw == "" && Empty()
    {
      raw := "";
    }

    /** `empty()`. */
    predicate Empty()
      reads this
    {
      raw == ""
    }
  }

  /** `Entry<0>`: a plain value, or a section of sub-key cells. The
      `Entry<1>` cells live inside the entry's map by value, so each is held
      as its raw text. */
  class Entry {
    var raw: string
    var section: bool
    var kv: map<string, string>

    /** The entry as a value. */
    function State(): Slot
      reads this
    {
      Slot(raw, section, kv)
    }

    constructor ()
      ensures raw == "" && !section && kv == map[]
      ensures State() == NewSlot && Empty() && !IsSection()
    {
      raw := "";
      section := false;
      kv := map[];
    }

    /** `operator=(v)` for a scalar: the entry stops being a section; its
        sub-keys stay. */
    method Assign(v: Scalar)
      requires WellTyped(v)
      modifies this
      ensures raw == Encode(v) && !section && kv == old(kv)
      ensures !IsSection() && Count() == 1 && (Empty() <==> v == RawVal(""))
    {
      section := false;
      raw := ToRawValue(v);
    }

    /** `operator=(container)`. */
    method AssignArray(xs: seq<Scalar>)
      requires forall i :: 0 <= i < |xs| ==> WellTyped(xs[i])
      modifies this
      ensures raw == EncodeArray(xs) && !section && kv == old(kv)
      ensures !IsSection() && Count() == 1 && !Empty()
    {
      section := false;
      raw := ToRawArray(xs);
    }

    /** `value<T>(d)`, inherited from `Value`: it looks at the entry's own
        raw text only, so a section with a raw text still reads it. */
    function Get(k: Kind, d: Scalar): (r: Scalar)
      reads this
      requires KindOf(d) == k
      ensures KindOf(r) == k
      ensures raw == "" ==> r == d
      ensures raw != "" ==> r == Decode(k, raw)
      ensures !IsSection() && Empty() ==> r == d
    {
      ValueOr(raw, k, d)
    }

    /** `array<T>()`. */
    method Array(k: Kind) returns (out: seq<Scalar>)
      ensures out == DecodeArray(k, raw)
    {
      out := FromRawArray(k, raw);
    }

    /** `clear()`: the raw text and the sub-keys go, the section flag stays. */
    method Clear()
      modifies this
      ensures raw == "" && kv == map[] && section == old(section)
      ensures State() == Slot("", old(section), map[])
      ensures Empty() && Count() == (if section then 0 else 1)
    {
      raw := "";
      kv := map[];
    }

    /** `empty()`. */
    predicate Empty()
      reads this
    {
      SlotEmpty(State())
    }

    /** `count()`. */
    function Count(): nat
      reads this
    {
      SlotCount(State())
    }

    /** `section()`. */
    predicate IsSection()
      reads this
    {
      section
    }

    /** `operator[](name)`: the entry becomes a section, and `name` gets an
        empty cell only if it has none; the other sub-keys stay. */
    method Index(name: string)
      modifies this
      ensures section && raw == old(raw) && name in kv
      ensures old(name in kv) ==> kv == old(kv)
      ensures old(name !in kv) ==> kv == old(kv)[name := ""]
      ensures State() == SlotIndex(old(State()), name)
      ensures IsSection() && !Empty() && Count() == |old(kv)| + (if name in old(kv) then 0 else 1)
    {
      IndexedSlot(State(), name);
      section := true;
      if name !in kv {
        kv := kv[name := ""];
      }
    }

    /** `entry[name] = v`: `operator[](name)`, then `Entry<1>::operator=`
        on the cell. */
    method AssignSub(name: string, v: Scalar)
      requires WellTyped(v)
      modifies this
      ensures section && raw == old(raw) && kv == old(kv)[name := Encode(v)]
      ensures State() == Slot(old(raw), true, old(kv)[name := Encode(v)])
      ensures IsSection() && !Empty() && Count() == |old(kv)| + (if name in old(kv) then 0 else 1)
    {
      Index(name);
      var r := ToRawValue(v);
      kv := kv[name := r];
    }

    /** `entry[name].value<T>(d)`: `operator[](name)`, then `value<T>(d)` on
        the cell; a missing sub-key is created, empty, and reads as `d`. */
    method SubValue(name: string, k: Kind, d: Scalar) returns (r: Scalar)
      requires KindOf(d) == k
      modifies this
      ensures State() == SlotIndex(old(State()), name)
      ensures name in old(kv) ==> r == ValueOr(old(kv)[name], k, d)
      ensures name !in old(kv) ==> r == d
    {
      Index(name);
      r := ValueOr(kv[name], k, d);
    }
  }
}
