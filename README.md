# simpleini, modelled in Dafny

A model of the core of `simpleini`, a header-only C++ library for INI
configuration files, with proofs about it. The model covers:

- the value codecs of `simpleini::utils`:
  - `transcode_text`, the escaping and quoting of text;
  - `to_raw_value` / `from_raw_value` for raw text, text, `bool` and every
    integral type;
  - the array codec (`to_raw_value` of a container, `splitArray`,
    `from_raw_array`);
- the cell classes `Value`, `Entry<1>` and `Entry<0>`;
- the configuration `ConfigImpl`: `operator[]`, `count`, `save` and `load`.

The modules follow the header:

| module | file | what it holds |
|---|---|---|
| `Wrappers` | `wrappers.dfy` | `Option` |
| `Lexical` | `lexical.dfy` | the key order of `std::map<std::string, …>`, and a method that walks a key set in that order |
| `Transcode` | `transcode.dfy` | `transcode_text` as an in-place loop, and the functions it is proved against |
| `Scalars` | `scalars.dfy` | the integral widths, the bool, integer, text and raw codecs, and their round trips |
| `Arrays` | `arrays.dfy` | the container encoder, the `splitArray` scanner, `from_raw_array`, and the array round trip |
| `Document` | `document.dfy` | the configuration as plain data: entries, `count`, the lines `save` writes, the line machine of `load`, and the save/load round trip |
| `Cells` | `cells.dfy` | the classes `Value` (which also stands for `Entry<1>`) and `Entry` (`Entry<0>` as an object on its own) |
| `Ini` | `ini.dfy` | the class `Config` (`ConfigImpl`), whose methods are proved against `Document` |

Overload dispatch on the C++ type becomes data. A value is a `Scalar`
(`BoolVal`, `IntVal(width, i)`, `TextVal`, `RawVal`), and the type asked of
`from_raw_value<T>` is a `Kind`. Integers are unbounded. The eleven integral
types are a `Width` with LP64 sizes, where plain `char` is signed. The
widening to `long long` / `unsigned long long` and the narrowing
`static_cast` back are written out as modular arithmetic.

`std::map` keeps its keys in order: lexicographic by character code, a prefix
first. That matters twice:

- `transcode_text` walks its escape table in key order: tab, newline,
  carriage return, double quote. This is not the order of the initializer
  list.
- `save` writes entries and sub-keys in key order.

`Entry<0>` is modelled once, as the value `Document.Slot`, with
`Document.SlotEmpty`, `Document.SlotCount` and `Document.SlotIndex` as its
`empty()`, `count()` and `operator[]`. `ConfigImpl` holds its entries by
value in a `std::map`, so `Ini.Config` holds `Slot`s. The class
`Cells.Entry` is the same entry as a stand-alone object: its fields are
those of a `Slot`, its `State()` is that `Slot`, and its accessors and
`Index` are defined through the `Slot` functions.

`Lexical.SortedKeys` is that order. `Lexical.FirstKey` gives the loops of
`count` and `save` the next key.

Some properties hold only for part of the input space. The contracts say
so, and the lemmas mark where the limit lies:

- The text round trip is proved for backslash-free text. Backslashes are
  not escaped, so a backslash before `t`, `n`, `r` or a quote, or at the
  end, is lost. `Transcode.BackslashTextIsLossy` shows that the
  two-character text backslash-`t` comes back as a tab.
- `save` writes names as they are, so the save/load round trip holds only
  for names that `Document.Saveable` admits. A plain key or a sub-key must
  hold no `=` and no newline, and must not start with a space, a tab, `#`,
  `;` or `[`. A section name must be non-empty and hold no `]` and no
  newline. Other names come back changed or in another place. The root key
  `a=b` with raw text `1` is written as `a=b=1` and read back as the key
  `a` with raw text `b=1` (`Document.EqualsInKeyIsLossy`). The key ` k`
  comes back as `k`. The sub-keys of a section named by the empty text are
  written under `[]` and come back as root entries.
- A section left with no sub-key line to write is lost when the file is
  read back.
- An entry that is both a plain value and a section loses one of the two.

## Model

| member | source | states |
|---|---|---|
| Lexical.LessIrreflexive | simpleini/simpleini.h:656 | the key order of `m_entries` never puts a name before itself |
| Lexical.LessTransitive | simpleini/simpleini.h:656 | the key order is transitive |
| Lexical.LessTotal | simpleini/simpleini.h:656 | any two different names are ordered one way or the other |
| Lexical.SortedKeys | simpleini/simpleini.h:656 | the keys in map order hold each key of the set exactly once |
| Lexical.SortedKeysSorted | simpleini/simpleini.h:656 | the keys in map order are strictly increasing |
| Lexical.SortedKeysDistinct | simpleini/simpleini.h:656 | the keys in map order repeat no name |
| Lexical.FirstKey | simpleini/simpleini.h:523 | the next key a map iteration visits is a key of the set, and the rest of the iteration visits the remaining keys in order |
| Transcode.Find | simpleini/simpleini.h:132 | `find` returns the first occurrence of the pattern at or after the start, or none if there is none |
| Transcode.StripQuotes | simpleini/simpleini.h:149-156 | a quoted text loses exactly its first and last character; a text with a quote at one end only loses that quote; a text with no quote at either end, and the empty text, are unchanged; a lone quote becomes the empty text |
| Transcode.ReplaceInPlace | simpleini/simpleini.h:128-139 | the inner `while` replaces every occurrence of one table row's pattern, left to right without overlap, and never empties the text |
| Transcode.TranscodeText | simpleini/simpleini.h:114-160 | with `encode`, the result is the escaped text in double quotes; otherwise the escapes are undone and at most one leading and one trailing quote are stripped |
| Transcode.EncodeTextIsEscape | simpleini/simpleini.h:116-146 | the four in-place passes in table order write each tab, newline, carriage return and quote as its escape, and each other character as itself |
| Transcode.TextRoundTrip | simpleini/simpleini.h:114-160 | decoding the encoding of any text without a backslash gives that text back |
| Transcode.EncodeTextShape | simpleini/simpleini.h:142-146 | an encoded text has at least two characters, starts and ends with a quote, and holds no raw tab, newline or carriage return |
| Transcode.EmptyText | simpleini/simpleini.h:124-146 | the empty text encodes to `""` and `""` decodes to the empty text |
| Transcode.BackslashTextIsLossy | simpleini/simpleini.h:116-122 | backslashes are not escaped, so backslash-`t` encodes as itself in quotes and decodes to a tab |
| Transcode.UnquotedText | simpleini/simpleini.h:149-156 | a backslash-free text that neither starts nor ends with a quote decodes to itself, so the unquoted text a hand-written file holds is read as written |
| Scalars.Narrow | simpleini/simpleini.h:299 | `static_cast<T>` gives a value of `T`, and leaves a value already in range unchanged |
| Scalars.ReadWide | simpleini/simpleini.h:296-298 | `iss >> v` into `long long` or `unsigned long long` yields a value of that type |
| Scalars.DecodeInt | simpleini/simpleini.h:292-300 | integer decoding yields a value of the requested type |
| Scalars.EncodeBool | simpleini/simpleini.h:236-240 | a bool encodes as `true` or `false`, and `raw == "true"` reads it back |
| Scalars.StrictBool | simpleini/simpleini.h:286-290 | `from_raw_value<bool>` is true exactly for the text `true`, the encoding of `true`; `1`, `True` and ` true` read as false |
| Scalars.IntRoundTrip | simpleini/simpleini.h:292-300 | every value of every integral type, its minimum and maximum included, decodes back from its decimal encoding |
| Scalars.UnparseableIntIsZero | simpleini/simpleini.h:292-300 | text with no digit decodes as 0 for every integral type |
| Scalars.Encode | simpleini/simpleini.h:224-249 | only a raw value can encode to the empty text |
| Scalars.Decode | simpleini/simpleini.h:280-315 | decoding yields a value of the requested kind, within its type's range |
| Scalars.ScalarRoundTrip | simpleini/simpleini.h:224-315 | every bool, integer, raw text and backslash-free text decodes back from its encoding |
| Scalars.ToRawValue | simpleini/simpleini.h:224-249 | `to_raw_value` of a scalar, with texts run through the in-place transcoder, is the encoding |
| Scalars.FromRawValue | simpleini/simpleini.h:280-315 | `from_raw_value<T>`, with texts run through the in-place transcoder, is the decoding |
| Arrays.EncodeAll | simpleini/simpleini.h:270-275 | one encoded element for each element, in order |
| Arrays.ToRawArray | simpleini/simpleini.h:260-278 | the `sep` loop writes `[`, the encoded elements joined by commas, then `]` |
| Arrays.FindChar | simpleini/simpleini.h:177 | `find(c)` returns the first position of `c` at or after the start, or none |
| Arrays.RFindChar | simpleini/simpleini.h:178 | `rfind(c)` returns the last position of `c`, or none |
| Arrays.FindSeparator | simpleini/simpleini.h:206 | `find_first_of(",]")` returns the first comma or bracket at or after the start, or none |
| Arrays.ClosingQuoteFrom | simpleini/simpleini.h:165-175 | returns the first quote at or after the start that no backslash precedes, or none |
| Arrays.FindStringEnd | simpleini/simpleini.h:165-175 | the loop of `findStringEnd` returns the first unescaped quote after the opening one, or none |
| Arrays.PieceEnd | simpleini/simpleini.h:197-217 | an element ends strictly after its start and within the text |
| Arrays.NextPieceEnd | simpleini/simpleini.h:197-217 | an element opening with a quote ends just past its closing quote; any other element ends at the next separator |
| Arrays.ScanPieces | simpleini/simpleini.h:185-220 | every element cut out is non-empty, and either runs from quote to quote or holds no separator |
| Arrays.SplitArrayText | simpleini/simpleini.h:163-222 | the scanner loop is `splitArray`: from the first `[` up to the first `]` outside a quoted element, provided the last `]` lies more than one place after that `[`; it skips separators and stops at an unterminated element |
| Arrays.SplitBracketed | simpleini/simpleini.h:177-184 | text from `[` to `]` is scanned from just after the `[`; `[]` gives no elements |
| Arrays.NoElements | simpleini/simpleini.h:177-182 | no elements come out when `[` is missing, `]` is missing, or the last `]` is at most one place after the first `[` |
| Arrays.ClosingBracket | simpleini/simpleini.h:177-220 | a `]` inside quotes belongs to the element even when it is the last `]` of the text, and an unquoted `]` ends the scan before a later one |
| Arrays.SplitJoin | simpleini/simpleini.h:163-222 | pieces joined by commas between brackets split back into the same pieces |
| Arrays.EncodedPiece | simpleini/simpleini.h:224-249 | every encoded bool, integer and backslash-free text is one piece for the scanner |
| Arrays.QuotedEscapePiece | simpleini/simpleini.h:114-146 | an encoded backslash-free text has no unescaped quote before its closing one |
| Arrays.SplitEncodeArray | simpleini/simpleini.h:163-278 | splitting an encoded array gives back each element's encoding |
| Arrays.DecodeAll | simpleini/simpleini.h:322-325 | one decoded element for each piece, in order |
| Arrays.FromRawArray | simpleini/simpleini.h:317-327 | `from_raw_array<T>` decodes each split element in order, each of the requested kind |
| Arrays.ArrayRoundTrip | simpleini/simpleini.h:260-327 | any sequence of bools, integers or backslash-free texts of one kind, the empty sequence and empty texts included, decodes back from its encoding |
| Arrays.FourEmptyTexts | tests/readwrite-tests.cpp:226-235 | `["","","",""]` splits into four elements, decodes to four empty texts, and has four elements as integers too |
| Cells.ValueOr | simpleini/simpleini.h:340-344 | `value<T>(d)` yields a value of `d`'s kind |
| Cells.ReadBack | simpleini/simpleini.h:333-344 | an empty cell reads as the default; a cell assigned a bool, an integer, a backslash-free text or a non-empty raw text reads that value back |
| Cells.EmptyTextAssigned | tests/readwrite-tests.cpp:215-224 | an assigned empty text leaves `""` in the cell, which is not empty and reads back as the empty text |
| Cells.Value.constructor | simpleini/simpleini.h:362-363 | a new cell is empty |
| Cells.Value.Assign | simpleini/simpleini.h:333-338 | `operator=` stores the scalar's encoding; the cell is empty afterwards only when an empty raw text was assigned |
| Cells.Value.AssignArray | simpleini/simpleini.h:333-338 | `operator=` on a container stores the array encoding, which is never empty |
| Cells.Value.Get | simpleini/simpleini.h:340-344 | `value<T>(d)` yields a value of the requested kind: `d` when the cell is empty, the decoded raw text otherwise |
| Cells.Value.Array | simpleini/simpleini.h:346-350 | `array<T>()` is the array decoding of the cell |
| Cells.Value.Clear | simpleini/simpleini.h:352-360 | `clear()` empties the cell, so `empty()` holds |
| Cells.Entry.constructor | simpleini/simpleini.h:450-452 | a new entry is empty, not a section, and has no sub-keys |
| Cells.Entry.Assign | simpleini/simpleini.h:391-418 | assigning a scalar makes the entry plain and stores the encoding; the sub-keys stay; `count()` is 1 and `empty()` holds only when an empty raw text was assigned |
| Cells.Entry.AssignArray | simpleini/simpleini.h:391-418 | assigning a container makes the entry plain and stores the array encoding; the sub-keys stay; the entry counts 1 and is not empty |
| Cells.Entry.Get | simpleini/simpleini.h:340-344 | the inherited `value<T>(d)` reads the entry's own raw text, so a section that has a raw text still reads it; a plain empty entry reads as `d` |
| Cells.Entry.Array | simpleini/simpleini.h:346-350 | `array<T>()` is the array decoding of the entry's raw text |
| Cells.Entry.Clear | simpleini/simpleini.h:399-413 | `clear()` drops the raw text and every sub-key and keeps the section flag; the entry is then empty and counts 0 as a section, 1 as a plain entry |
| Cells.Entry.Index | simpleini/simpleini.h:405-428 | `operator[]` makes the entry a section and adds an empty sub-key only when `name` is absent; the raw text and the other sub-keys stay; the entry is then a non-empty section counting one more sub-key exactly when `name` was new |
| Cells.Entry.AssignSub | simpleini/simpleini.h:376-381 | `entry[name] = v` makes the entry a section and sets exactly that sub-key to the encoding; the entry is then non-empty and counts one more sub-key exactly when `name` was new |
| Cells.Entry.SubValue | simpleini/simpleini.h:420-428 | `entry[name].value<T>(d)` reads a present sub-key, and creates a missing one empty, reading it as `d` |
| Document.DocIndex | simpleini/simpleini.h:510-518 | `operator[]` adds `name` as a new empty entry only when absent, and changes no other entry |
| Document.SlotIndex | simpleini/simpleini.h:420-428 | `Entry<0>::operator[]` sets the section flag and adds an empty sub-key only when absent |
| Document.SlotCount | simpleini/simpleini.h:405-413 | `count()` of a section is 0 exactly when `empty()` holds; a plain entry counts 1 even when empty |
| Document.IndexedSlot | simpleini/simpleini.h:405-428 | after `operator[](name)` the entry is a section, is not empty, and counts one more sub-key exactly when `name` was absent |
| Document.ClearedSlot | simpleini/simpleini.h:399-413 | after `clear()` the entry is empty, and counts 0 as a section and 1 as a plain entry |
| Document.AssignedSlot | simpleini/simpleini.h:391-413 | after `Entry<0>::operator=` the entry is plain, counts 1, and is empty exactly when the raw text is |
| Document.AssignRoot | simpleini/simpleini.h:391-397 | `config[key] = v` adds `key` if absent and changes no other entry; `key` ends plain with the new raw text and keeps its sub-keys, none when it was new |
| Document.AssignRootLast | simpleini/simpleini.h:391-397 | a second `config[key] = v` overwrites the first |
| Document.AssignSub | simpleini/simpleini.h:420-428 | `config[sec][key] = v` adds `sec` if absent and changes no other entry; `sec` ends a section that keeps its raw text and its sub-keys, with `key` set to the new raw text |
| Document.AssignSubShape | simpleini/simpleini.h:420-428 | `config[sec][key] = v` leaves a section holding its raw text and its sub-keys with `key` set to `v` |
| Document.CountOverRemove | simpleini/simpleini.h:520-528 | the sum in `count` does not depend on the order the entries are added in |
| Document.DocCountAdd | simpleini/simpleini.h:520-528 | adding an entry adds its count to the total |
| Document.DocCountUpdate | simpleini/simpleini.h:520-528 | replacing an entry replaces its count in the total |
| Document.AssignRootCount | simpleini/simpleini.h:391-397 | `config[key] = v` makes `key` count 1 in the total, in place of what it counted before |
| Document.CountExample | tests/simpleini-tests.cpp:101-117 | an empty configuration counts 0; two keys and two sections of two sub-keys each count 6 |
| Document.SaveTextPasses | simpleini/simpleini.h:558-592 | `save` writes the plain pass's text followed by the section pass's text |
| Document.GetTerminated | simpleini/simpleini.h:470-473 | reading newline-free lines back from the newline-terminated text gives the lines back |
| Document.FirstNonBlank | simpleini/simpleini.h:622 | `find_first_not_of(" \t")` returns the first character that is not a space or tab, or none |
| Document.BlankLine | simpleini/simpleini.h:607-626 | an empty or whitespace-only line changes nothing |
| Document.CommentLine | simpleini/simpleini.h:628-631 | a line whose first non-blank character is `#` or `;` changes nothing |
| Document.NoAssignmentLine | simpleini/simpleini.h:633-637 | a line with no `=` that is not a header changes nothing |
| Document.HeaderLine | simpleini/simpleini.h:612-620 | a line starting with `[` that holds a `]` switches to the section named up to the first `]`, and changes nothing else |
| Document.AssignmentLine | simpleini/simpleini.h:639-649 | a key line assigns the text after the first `=` to the key from the first non-blank character; it goes to the root entry outside a section and to the current section otherwise |
| Document.StepShape | simpleini/simpleini.h:605-650 | one line of `load` never removes an entry and adds at most one; only a header line changes the current section, and then changes no entry; a line without `=` changes no entry |
| Document.IgnoredLines | simpleini/simpleini.h:605-650 | lines that each change nothing change nothing together |
| Document.LoadFromAppend | simpleini/simpleini.h:605-650 | loading two runs of lines is loading the first, then the second from where the first left off |
| Document.SkipCommentsExample | tests/readwrite-tests.cpp:144-158 | the `SkipComments` lines load as the single entry `key=true`, which counts 1 |
| Document.SaveLoad | simpleini/simpleini.h:551-653 | for a `Saveable` configuration, whose names hold no character the line format gives a meaning to, loading the lines `save` writes gives back plain entries with their raw text, and sections with the sub-keys that were written; a section with no written sub-key is lost |
| Document.SaveLoadIdentity | simpleini/simpleini.h:551-653 | saving then loading returns the same `Saveable` configuration when each section has written sub-keys and no raw text, and each plain entry has no sub-keys (and is non-empty when skipping) |
| Document.SaveTextLoad | simpleini/simpleini.h:470-653 | the same round trip for a `Saveable` configuration, through the written text and `getline`, for names and raw texts without newlines |
| Document.EqualsInKeyIsLossy | simpleini/simpleini.h:558-649 | a root key `c=b` is not `Saveable`: it is written as the line `c=b=v` and loaded back as the key `c` with raw text `b=v` |
| Ini.Config.constructor | simpleini/simpleini.h:655-657 | a new configuration has no entries |
| Ini.Config.Index | simpleini/simpleini.h:510-518 | `operator[](name)` adds `name` as an empty entry only when absent |
| Ini.Config.Set | simpleini/simpleini.h:642-645 | `config[key] = v` makes `key` a plain entry holding the encoding of `v`; nothing else changes |
| Ini.Config.SetSub | simpleini/simpleini.h:646-649 | `config[sec][key] = v` makes `sec` a section whose sub-key `key` holds the encoding of `v`; nothing else changes |
| Ini.Config.Count | simpleini/simpleini.h:520-528 | `count()` is the sum of the entries' counts |
| Ini.Config.Save | simpleini/simpleini.h:550-594 | `save` returns false and writes nothing when the writer did not open; otherwise it returns true and writes the save text |
| Ini.Config.PlainPass | simpleini/simpleini.h:558-570 | the first loop writes `name=raw` for each plain entry in key order, skipping empty ones when asked |
| Ini.Config.SectionPass | simpleini/simpleini.h:571-592 | the second loop writes a block for each section in key order |
| Ini.Config.WriteBlock | simpleini/simpleini.h:573-591 | a section's block is `\n[name]\n`, then its sub-key lines in key order; a plain entry, or an empty section when skipping, writes nothing |
| Ini.Config.Load | simpleini/simpleini.h:596-653 | `load` builds the configuration that the line machine describes for the given lines |
| Ini.Config.LoadLine | simpleini/simpleini.h:607-649 | one turn of the loop of `load` changes the entries and the current section as the line machine describes |

## Left out

- Floating-point `to_raw_value` / `from_raw_value` (simpleini/simpleini.h:251-258, 302-309): binary floating point and its decimal printing are outside the model. No other operation depends on them.
- `Reader` and `Writer` (simpleini/simpleini.h:461-501) do file I/O. `load` is given the lines `getLine` would return. `save` is told whether the writer opened, and returns the text it would write. `Document.GetLines` stands for `std::getline` on that text.
- The `traits` templates (simpleini/simpleini.h:23-90) do overload selection at compile time. The `Kind` and `Scalar` tags replace them. `utils::Raw` is `RawVal`.
- `begin()` / `end()` of `Entry<0>` and `ConfigImpl` are only reachable as iteration. Only the ordered iteration inside `count` and `save` is modelled, through `Lexical.FirstKey`.
- `operator[]` returns references into the maps. The model holds entries and sub-key cells by value, as `std::map` stores them. Only the uses the core makes of those references are modelled: assignment through one or two levels (`Ini.Config.Set`, `Ini.Config.SetSub`, `Cells.Entry.AssignSub`) and reading a sub-key (`Cells.Entry.SubValue`). Aliasing of a reference held across other calls is not modelled.
- `Entry<1>` only forwards `operator=` to `Value`, so `Cells.Value` stands for it. The sub-key cells inside an `Entry` are their raw texts.
- `value<T>()` has the default argument `T{}`. In the model the default is passed explicitly.
- Scalars.ReadWide: only three stream behaviours are modelled: an optional `-` for signed types, the longest digit run, and overflow saturating at the widened type's bound. Leading whitespace, a leading `+`, and the negation of `-digits` read into an unsigned type are not, because the codec never writes them.
- Names are Dafny strings, sequences of characters. A character of a name stands for a byte of the `std::string`. Every character the formats give a meaning to is ASCII, so the map order and the parsing are the same.
- Scalars.Width: `wchar_t`, `char16_t` and `char32_t` are left out. Sizes are those of LP64 with a signed `char`.
- Ini.Config.Count: the `size_t` sum is unbounded here, because wrap-around needs more than 2^64 entries.
- `Transcode.TranscodeText` loops while `pos <= size() - 1`. The model computes this with integers. It matches the `size_t` computation because the text is never empty inside the loop: the outer `if` excludes an empty text, and no replacement is empty.
- The escape order of the initializer list (newline, tab, quote, carriage return) is not the order the passes run in. The code walks a `std::map`, which visits tab, newline, carriage return, quote, and the model follows that. For backslash-free text the order makes no difference to the round trip.
