/** What the plugin's own reader sees after the profile calls have written, on any file at all: the
    reader takes the last entry of a key, the calls write the first. */
module ProfileOverride {
  import opened AsciiText
  import opened Common
  import opened ProfileFile

  // ---------------------------------------------------------------------------------------
  // The reader, on a file cut in two
  // ---------------------------------------------------------------------------------------

  lemma {:induction false} ScanInTwo(scan: Scan, front: seq<Line>, rest: seq<Line>)
    ensures ScanView(scan, front + rest) == ScanView(ScanView(scan, front), rest)
  {
    if rest == [] {
      assert front + rest == front;
    } else {
      assert (front + rest)[..|front + rest| - 1] == front + rest[..|rest| - 1];
      ScanInTwo(scan, front, rest[..|rest| - 1]);
    }
  }

  /** The value of the last entry of a key that a reader in state `scan` takes from these lines, if any. */
  function LastTaken(scan: Scan, view: seq<Line>, key: Key): Option<string> {
    if view == [] then None
    else
      var front, last := view[..|view| - 1], view[|view| - 1];
      if HasKey(last, key) && ScanView(scan, front).inSection then Some(last.value)
      else LastTaken(scan, front, key)
  }

  function GetOr(value: Option<string>, otherwise: string): string {
    if value.Some? then value.value else otherwise
  }

  lemma {:induction false} LastTakenIsField(scan: Scan, view: seq<Line>, key: Key)
    ensures Field(ScanView(scan, view), key) == GetOr(LastTaken(scan, view, key), Field(scan, key))
  {
    if view != [] {
      LastTakenIsField(scan, view[..|view| - 1], key);
    }
  }

  /** The reader agrees, as far as `key` goes, on whether it is in a section and on the value so far. */
  predicate Agree(s: Scan, t: Scan, key: Key) {
    s.inSection == t.inSection && Field(s, key) == Field(t, key)
  }

  lemma {:induction false} AgreementIsKept(s: Scan, t: Scan, view: seq<Line>, key: Key)
    requires Agree(s, t, key)
    ensures Agree(ScanView(s, view), ScanView(t, view), key)
  {
    if view != [] {
      AgreementIsKept(s, t, view[..|view| - 1], key);
    }
  }

  /** What is taken depends on the state only through its section. */
  lemma {:induction false} TakenFromSection(s: Scan, t: Scan, view: seq<Line>, key: Key)
    requires s.inSection == t.inSection
    ensures ScanView(s, view).inSection == ScanView(t, view).inSection
    ensures LastTaken(s, view, key) == LastTaken(t, view, key)
  {
    if view != [] {
      TakenFromSection(s, t, view[..|view| - 1], key);
    }
  }

  /** Lines that are entries of another key. */
  predicate AreForeign(view: seq<Line>, key: Key) {
    forall k | 0 <= k < |view| :: view[k].Entry? && view[k].key != key
  }

  lemma {:induction false} ForeignLines(scan: Scan, front: seq<Line>, view: seq<Line>, key: Key)
    requires AreForeign(view, key)
    ensures Agree(ScanView(scan, front + view), ScanView(scan, front), key)
    ensures LastTaken(scan, front + view, key) == LastTaken(scan, front, key)
  {
    if view == [] {
      assert front + view == front;
    } else {
      assert (front + view)[..|front + view| - 1] == front + view[..|view| - 1];
      ForeignLines(scan, front, view[..|view| - 1], key);
    }
  }

  /** Exchanging entries of another key changes nothing for this one. */
  lemma {:induction false} ForeignExchange(
    scan: Scan, front: seq<Line>, view: seq<Line>, view': seq<Line>, rest: seq<Line>, key: Key)
    requires AreForeign(view, key) && AreForeign(view', key)
    ensures Agree(ScanView(scan, front + view + rest), ScanView(scan, front + view' + rest), key)
    ensures LastTaken(scan, front + view + rest, key) == LastTaken(scan, front + view' + rest, key)
  {
    if rest == [] {
      assert front + view + rest == front + view && front + view' + rest == front + view';
      ForeignLines(scan, front, view, key);
      ForeignLines(scan, front, view', key);
    } else {
      var shorter := rest[..|rest| - 1];
      assert (front + view + rest)[..|front + view + rest| - 1] == front + view + shorter;
      assert (front + view' + rest)[..|front + view' + rest| - 1] == front + view' + shorter;
      ForeignExchange(scan, front, view, view', shorter, key);
    }
  }

  // ---------------------------------------------------------------------------------------
  // Above, at and below the place of a write
  // ---------------------------------------------------------------------------------------

  /** The place where a write puts the entry of a key, in a file that has an upscaling section. */
  function Place(view: seq<Line>, key: Key): (index: nat)
    requires FindSection(view, 0) < |view|
    ensures FindSection(view, 0) < index <= |view|
  {
    FindEntry(view, FindSection(view, 0) + 1, key)
  }

  predicate IsReplaced(view: seq<Line>, key: Key)
    requires FindSection(view, 0) < |view|
  {
    Place(view, key) < |view| && HasKey(view[Place(view, key)], key)
  }

  /** The lines a write leaves below its entry. */
  function Below(view: seq<Line>, key: Key): seq<Line> {
    if FindSection(view, 0) == |view| then []
    else if IsReplaced(view, key) then view[Place(view, key) + 1..]
    else view[Place(view, key)..]
  }

  const IN_SECTION: Scan := Scan(true, "", "")

  /** The value that a write of this key cannot reach: that of the last entry below its place in any
      upscaling section. */
  function Overriding(view: seq<Line>, key: Key): Option<string> {
    LastTaken(IN_SECTION, Below(view, key), key)
  }

  lemma UpdatedSlice<T>(view: seq<T>, from: nat, index: nat, item: T)
    requires from <= index < |view|
    ensures view[index := item][from..] == view[from..index] + [item] + view[index + 1..]
    ensures view[from..] == view[from..index] + [view[index]] + view[index + 1..]
  {
  }

  function Inserted<T>(view: seq<T>, index: nat, item: T): (placed: seq<T>)
    requires index <= |view|
    ensures |placed| == |view| + 1
    ensures forall k | 0 <= k < index :: placed[k] == view[k]
    ensures placed[index] == item
    ensures index < |view| ==> placed[index + 1] == view[index]
  {
    view[..index] + [item] + view[index..]
  }

  lemma CutSlice<T>(view: seq<T>, from: nat, index: nat)
    requires from <= index <= |view|
    ensures view[from..] == view[from..index] + [] + view[index..]
  {
  }

  lemma PlacedIsUpdate(view: seq<Line>, key: Key, item: Line)
    requires FindSection(view, 0) < |view|
    ensures var index := Place(view, key);
            Placed(view, view, key, Section(true), item)
            == if IsReplaced(view, key) then view[index := item] else Inserted(view, index, item)
  {
    hide FindSection, FindEntry, HasKey;
  }

  /** The line that a write replaces, if any. */
  function Replaced(view: seq<Line>, key: Key): seq<Line>
    requires FindSection(view, 0) < |view|
  {
    if IsReplaced(view, key) then [view[Place(view, key)]] else []
  }

  lemma BelowIs(view: seq<Line>, key: Key)
    requires FindSection(view, 0) < |view|
    ensures var index := Place(view, key);
            Below(view, key) == if IsReplaced(view, key) then view[index + 1..] else view[index..]
  {
    hide FindSection, Place, HasKey;
  }

  /** A write in terms of the lines around its place. */
  lemma PlacedAround(view: seq<Line>, key: Key, item: Line)
    requires FindSection(view, 0) < |view|
    ensures Placed(view, view, key, Section(true), item) == view[..Place(view, key)] + [item] + Below(view, key)
    ensures view == view[..Place(view, key)] + Replaced(view, key) + Below(view, key)
  {
    PlacedIsUpdate(view, key, item);
    BelowIs(view, key);
    hide FindSection, Place, HasKey, Placed, Below;
    if IsReplaced(view, key) {
      UpdatedSlice(view, 0, Place(view, key), item);
    } else {
      CutSlice(view, 0, Place(view, key));
    }
  }

  lemma {:induction false} InSectionBelowHeader(view: seq<Line>, section: nat, index: nat)
    requires section < index <= |view| && view[section] == Section(true)
    requires forall k | section < k < index :: !view[k].Section?
    ensures ScanView(NOTHING, view[..index]).inSection
  {
    assert view[..index][..index - 1] == view[..index - 1];
    if section < index - 1 {
      InSectionBelowHeader(view, section, index - 1);
    }
  }

  /** The reader is in the first upscaling section when it comes to the place of a write. */
  lemma InSectionAtPlace(view: seq<Line>, key: Key)
    requires FindSection(view, 0) < |view|
    ensures ScanView(NOTHING, view[..Place(view, key)]).inSection
  {
    hide FindSection, FindEntry, ScanView, HasKey;
    assert forall k | FindSection(view, 0) < k < Place(view, key) :: !EndsSearch(view[k], key);
    InSectionBelowHeader(view, FindSection(view, 0), Place(view, key));
  }

  /** After a write, the reader sees the written value, unless a later entry overrides it. */
  lemma PlacedIsScanned(view: seq<Line>, key: Key, value: string)
    ensures Field(ScanView(NOTHING, Placed(view, view, key, Section(true), Entry(key, value))), key)
            == GetOr(Overriding(view, key), value)
  {
    var item, section := Entry(key, value), FindSection(view, 0);
    if section == |view| {
      AppendedIsScanned(view, key, value);
    } else {
      hide FindSection, FindEntry, Placed, Place, Below, ScanView, LastTaken;
      var front, rest := view[..Place(view, key)], Below(view, key);
      PlacedAround(view, key, item);
      InSectionAtPlace(view, key);
      ScanInTwo(NOTHING, front + [item], rest);
      ScanOneMore(NOTHING, front, item);
      var scan := ScanView(NOTHING, front + [item]);
      LastTakenIsField(scan, rest, key);
      TakenFromSection(scan, IN_SECTION, rest, key);
    }
  }

  lemma ScanOneMore(scan: Scan, front: seq<Line>, line: Line)
    ensures ScanView(scan, front + [line]) == ScanLine(ScanView(scan, front), line)
  {
    assert (front + [line])[..|front|] == front;
  }

  lemma AppendedIsScanned(view: seq<Line>, key: Key, value: string)
    ensures Field(ScanView(NOTHING, view + [Section(true), Entry(key, value)]), key) == value
  {
    hide ScanView;
    ScanOneMore(NOTHING, view, Section(true));
    ScanOneMore(NOTHING, view + [Section(true)], Entry(key, value));
    assert view + [Section(true), Entry(key, value)] == view + [Section(true)] + [Entry(key, value)];
  }

  // ---------------------------------------------------------------------------------------
  // The other key
  // ---------------------------------------------------------------------------------------

  lemma OtherFieldIsKept(view: seq<Line>, key: Key, value: string, other: Key)
    requires other != key
    ensures Field(ScanView(NOTHING, Placed(view, view, key, Section(true), Entry(key, value))), other)
            == Field(ScanView(NOTHING, view), other)
  {
    var item := Entry(key, value);
    hide FindSection, FindEntry, Place, Below, ScanView;
    if FindSection(view, 0) == |view| {
      ScanOneMore(NOTHING, view, Section(true));
      ScanOneMore(NOTHING, view + [Section(true)], item);
      assert view + [Section(true), item] == view + [Section(true)] + [item];
    } else {
      PlacedAround(view, key, item);
      ForeignExchange(NOTHING, view[..Place(view, key)], [item], Replaced(view, key), Below(view, key), other);
    }
  }

  /** Writing one key moves nothing in or out of the reach of a write of the other. */
  lemma OtherOverridingIsKept(view: seq<Line>, key: Key, value: string, other: Key)
    requires other != key
    ensures Overriding(Placed(view, view, key, Section(true), Entry(key, value)), other) == Overriding(view, other)
  {
    var item, section := Entry(key, value), FindSection(view, 0);
    hide FindSection, FindEntry, LastTaken;
    if section == |view| {
      var placed := view + [Section(true), item];
      SectionIsFirst(placed, section);
      EntryIsFirst(placed, section + 1, other, section + 2);
      assert placed[section + 2..] == [];
    } else if IsReplaced(view, key) {
      ReplacedKeepsOverriding(view, key, item, other);
    } else {
      InsertedKeepsOverriding(view, key, item, other);
    }
  }

  lemma PlaceIs(view: seq<Line>, section: nat, found: nat, key: Key)
    requires section < found <= |view| && view[section] == Section(true)
    requires forall k | 0 <= k < section :: view[k] != Section(true)
    requires forall k | section < k < found :: !EndsSearch(view[k], key)
    requires found < |view| ==> EndsSearch(view[found], key)
    ensures FindSection(view, 0) == section && Place(view, key) == found
  {
    hide FindSection, FindEntry, HasKey, EndsSearch;
    SectionIsFirst(view, section);
    EntryIsFirst(view, section + 1, key, found);
  }

  /** Below the first section and the first entry of a key, given where these are. */
  lemma BelowStart(view: seq<Line>, section: nat, found: nat, key: Key)
    requires section < found <= |view| && view[section] == Section(true)
    requires forall k | 0 <= k < section :: view[k] != Section(true)
    requires forall k | section < k < found :: !EndsSearch(view[k], key)
    requires found < |view| ==> EndsSearch(view[found], key)
    ensures Below(view, key) == if found < |view| && HasKey(view[found], key) then view[found + 1..] else view[found..]
  {
    hide FindSection, Place, Below, HasKey, EndsSearch;
    PlaceIs(view, section, found, key);
    BelowIs(view, key);
  }

  lemma ReplacedKeepsOverriding(view: seq<Line>, key: Key, item: Line, other: Key)
    requires other != key && FindSection(view, 0) < |view| && IsReplaced(view, key) && HasKey(item, key)
    ensures Overriding(view[Place(view, key) := item], other) == Overriding(view, other)
  {
    hide FindSection, FindEntry, LastTaken, Below;
    var section, index, found := FindSection(view, 0), Place(view, key), Place(view, other);
    BelowStart(view, section, found, other);
    BelowStart(view[index := item], section, found, other);
    BelowUpdated(view, index, item, if IsReplaced(view, other) then found + 1 else found, other);
  }

  lemma BelowUpdated(view: seq<Line>, index: nat, item: Line, from: nat, key: Key)
    requires index < |view| && from <= |view|
    requires item.Entry? && item.key != key && view[index].Entry? && view[index].key != key
    ensures LastTaken(IN_SECTION, view[index := item][from..], key) == LastTaken(IN_SECTION, view[from..], key)
  {
    hide *;
    if from <= index {
      UpdatedSlice(view, from, index, item);
      assert AreForeign([item], key) && AreForeign([view[index]], key) by {
        OneIsForeign(item, key);
        OneIsForeign(view[index], key);
      }
      ForeignExchange(IN_SECTION, view[from..index], [view[index]], [item], view[index + 1..], key);
    } else {
      assert view[index := item][from..] == view[from..];
    }
  }

  lemma OneIsForeign(line: Line, key: Key)
    requires line.Entry? && line.key != key
    ensures AreForeign([line], key) && AreForeign([], key)
  {
  }

  lemma InsertedSlice<T>(view: seq<T>, from: nat, index: nat, item: T)
    requires from <= index <= |view|
    ensures Inserted(view, index, item)[from..] == view[from..index] + [item] + view[index..]
    ensures Inserted(view, index, item)[index + 1..] == view[index..]
  {
  }

  lemma BelowInserted(view: seq<Line>, index: nat, item: Line, from: nat, key: Key)
    requires from <= index <= |view| && item.Entry? && item.key != key
    ensures LastTaken(IN_SECTION, Inserted(view, index, item)[from..], key) == LastTaken(IN_SECTION, view[from..], key)
  {
    hide *;
    InsertedSlice(view, from, index, item);
    CutSlice(view, from, index);
    OneIsForeign(item, key);
    ForeignExchange(IN_SECTION, view[from..index], [], [item], view[index..], key);
  }

  /** An insertion below the first entry of a key leaves that entry the first. */
  lemma BelowOfInserted(view: seq<Line>, section: nat, found: nat, index: nat, item: Line, other: Key)
    requires FindSection(view, 0) < |view|
    requires section == FindSection(view, 0) < found == Place(view, other) < index <= |view|
    requires IsReplaced(view, other)
    ensures Below(Inserted(view, index, item), other) == Inserted(view, index, item)[found + 1..]
  {
    hide FindSection, FindEntry, Below, Inserted, EndsSearch, HasKey;
    var placed := Inserted(view, index, item);
    assert forall k | 0 <= k <= found :: placed[k] == view[k];
    BelowStart(placed, section, found, other);
  }

  lemma InsertedAfterFound(view: seq<Line>, section: nat, found: nat, index: nat, item: Line, other: Key)
    requires FindSection(view, 0) < |view|
    requires section == FindSection(view, 0) < found == Place(view, other) < index <= |view|
    requires item.Entry? && item.key != other && IsReplaced(view, other)
    ensures Overriding(Inserted(view, index, item), other) == Overriding(view, other)
  {
    hide FindSection, Place, LastTaken, Below, Inserted, HasKey;
    BelowOfInserted(view, section, found, index, item, other);
    BelowIs(view, other);
    BelowInserted(view, index, item, found + 1, other);
  }

  lemma InsertedAtFound(view: seq<Line>, section: nat, index: nat, item: Line, other: Key)
    requires FindSection(view, 0) < |view|
    requires section == FindSection(view, 0) < index == Place(view, other) <= |view|
    requires !EndsSearch(item, other) && !IsReplaced(view, other)
    ensures Below(Inserted(view, index, item), other) == Below(view, other)
  {
    hide FindSection, FindEntry, EndsSearch, HasKey, Inserted;
    var placed := Inserted(view, index, item);
    assert forall k | section < k < index + 1 :: !EndsSearch(placed[k], other);
    BelowStart(placed, section, index + 1, other);
    InsertedSlice(view, index, index, item);
  }

  lemma InsertedKeepsOverriding(view: seq<Line>, key: Key, item: Line, other: Key)
    requires other != key && FindSection(view, 0) < |view| && !IsReplaced(view, key) && HasKey(item, key)
    ensures Overriding(Inserted(view, Place(view, key), item), other) == Overriding(view, other)
  {
    hide FindSection, FindEntry, Below, LastTaken, Inserted;
    var section, index, found := FindSection(view, 0), Place(view, key), Place(view, other);
    assert found <= index;
    if found < index {
      InsertedAfterFound(view, section, found, index, item, other);
    } else {
      InsertedAtFound(view, section, index, item, other);
    }
  }

  // ---------------------------------------------------------------------------------------
  // Files
  // ---------------------------------------------------------------------------------------

  /** A write adds its line, or puts it in the place of an entry of the same key, or adds a section with it at the
      end; every other line stays as it was. */
  lemma WriteKeepsLines(lines: seq<string>, key: Key, value: string)
    ensures var line, written := EntryLine(key, value), Write(lines, key, value);
            || written == lines + [HEADER, line]
            || (exists i :: 0 <= i <= |lines| && written == lines[..i] + [line] + lines[i..])
            || (exists i :: 0 <= i < |lines| && HasKey(Classify(lines[i]), key) && written == lines[i := line])
  {
    hide Classify, EntryLine, HEADER;
    var view := Classified(lines);
    if FindSection(view, 0) < |view| {
      var i := Place(view, key);
      hide FindSection, FindEntry, HasKey;
      assert Write(lines, key, value)
          == if IsReplaced(view, key) then lines[i := EntryLine(key, value)]
             else lines[..i] + [EntryLine(key, value)] + lines[i..];
    }
  }

  /** What the reader sees of a key after it was written. */
  lemma WriteThenScan(lines: seq<string>, key: Key, value: string)
    requires AreLines(lines) && IsLine(value)
    ensures Field(Scanned(Text(Write(lines, key, value))), key)
            == GetOr(Overriding(Classified(lines), key), Trim(value))
  {
    WrittenLinesAreLines(lines, key, value);
    hide Write, Classify, Classified, Scanned, Text, Overriding, Trim;
    ScannedIsScanView(Write(lines, key, value));
    WriteClassifies(lines, key, value);
    PlacedIsScanned(Classified(lines), key, Trim(value));
  }

  /** Writing one key leaves alone what the reader sees of the other, and what would override it. */
  lemma WriteKeepsOther(lines: seq<string>, key: Key, value: string, other: Key)
    requires AreLines(lines) && lines != [] && IsLine(value) && other != key
    ensures Field(Scanned(Text(Write(lines, key, value))), other) == Field(Scanned(Text(lines)), other)
  {
    WrittenLinesAreLines(lines, key, value);
    hide Write, Classify, Classified, Scanned, Text, Trim;
    ScannedIsScanView(lines);
    ScannedIsScanView(Write(lines, key, value));
    WriteClassifies(lines, key, value);
    OtherFieldIsKept(Classified(lines), key, Trim(value), other);
  }

  lemma WriteKeepsOverriding(lines: seq<string>, key: Key, value: string, other: Key)
    requires other != key
    ensures Overriding(Classified(Write(lines, key, value)), other) == Overriding(Classified(lines), other)
  {
    hide Write, Classified, Trim, Overriding;
    WriteClassifies(lines, key, value);
    OtherOverridingIsKept(Classified(lines), key, Trim(value), other);
  }
}
