/** The two-key commit of the upscaling selection: provider and mode go to the file one after the
    other, are verified by reading the file back, and are rolled back when anything fails. */
module Settings {
  import opened AsciiText
  import opened Common
  import opened ProfileFile
  import opened ProfileOverride

  datatype Vendor = Automatic | Nvidia | Amd | Intel | NoVendor {
    predicate IsSelectable() {
      Nvidia? || Amd? || Intel?
    }

    function Key(): string {
      match this
      case Automatic => "Auto"
      case Nvidia => "NVIDIA"
      case Amd => "AMD"
      case Intel => "Intel"
      case NoVendor => "Off"
    }
  }

  datatype UpscalingMode = Off | Dlaa | Quality | Balanced | Performance | UltraPerformance {
    function Name(): string {
      match this
      case Off => "Off"
      case Dlaa => "DLAA"
      case Quality => "Quality"
      case Balanced => "Balanced"
      case Performance => "Performance"
      case UltraPerformance => "UltraPerformance"
    }
  }

  datatype Selection = Selection(provider: Vendor, mode: UpscalingMode)

  /** Which of the file operations of one commit succeed; a failed write changes nothing. `loaded` is the
      selection in the file, unless it is not a regular file. */
  datatype FileOutcomes = FileOutcomes(
    pathResolved: bool, loaded: Option<Selection>, providerWritten: bool, modeWritten: bool,
    fileOpened: bool, flushed: bool, readable: bool, providerRestored: bool, modeRestored: bool)

  lemma NamesAreTrimmed(provider: Vendor, mode: UpscalingMode)
    ensures provider.Key() != "" && Trim(provider.Key()) == provider.Key()
    ensures mode.Name() != "" && Trim(mode.Name()) == mode.Name()
  {
    hide Trim, TrimFront, TrimBack;
    SolidIsTrimmed(provider.Key());
    SolidIsTrimmed(mode.Name());
  }

  /** What the plugin's own reader sees in the file, up to letter case, is this selection. */
  predicate ReaderSees(lines: seq<string>, provider: string, mode: string)
    requires lines != []
  {
    var scan := Scanned(Text(lines));
    IEquals(scan.provider, provider) && IEquals(scan.mode, mode)
  }

  /** `verify_profile_commit(...).durable()`. */
  method VerifyProfileCommit(lines: seq<string>, provider: string, mode: string, io: FileOutcomes)
    returns (durable: bool)
    requires lines != []
    ensures durable <==>
              && io.fileOpened && io.flushed && io.readable && |Text(lines)| <= MAXIMUM_SIZE
              && Scanned(Text(lines)).provider != "" && Scanned(Text(lines)).mode != ""
              && ReaderSees(lines, provider, mode)
  {
    if !io.fileOpened || !io.flushed {
      return false;
    }
    var ok, observed := ReadPhysicalProfileValues(Text(lines), io.readable);
    durable := ok && IEquals(observed.provider, provider) && IEquals(observed.mode, mode);
  }

  /** Both keys written in turn. */
  function WriteBoth(lines: seq<string>, provider: string, mode: string): (written: seq<string>)
    ensures written != []
  {
    Write(Write(lines, Provider, provider), Mode, mode)
  }

  /** What the restore writes make of a file, given which of them succeed. */
  function Restored(lines: seq<string>, provider: string, mode: string, io: FileOutcomes): seq<string> {
    var first := if io.providerRestored then Write(lines, Provider, provider) else lines;
    if io.modeRestored then Write(first, Mode, mode) else first
  }

  class Settings {
    var pathKnown: bool
    var selection: Selection

    /** The lines of the configuration file. */
    var file: seq<string>

    /** The file location is known already, or loading finds it together with a file to load. */
    ghost predicate IsReady(io: FileOutcomes)
      reads this
    {
      pathKnown || (io.pathResolved && io.loaded.Some?)
    }

    /** The selection in memory once that has happened; loading replaces what was there. */
    ghost function Loaded(io: FileOutcomes): Selection
      reads this
    {
      if !pathKnown && IsReady(io) then io.loaded.value else selection
    }

    /** Keeps the location even when there is no file to load. */
    method Load(io: FileOutcomes) returns (ok: bool)
      requires !pathKnown
      modifies this
      ensures ok == old(IsReady(io)) && selection == old(Loaded(io)) && file == old(file)
      ensures pathKnown == io.pathResolved
    {
      pathKnown := io.pathResolved;
      ok := pathKnown && io.loaded.Some?;
      if ok {
        selection := io.loaded.value;
      }
    }

    method RestorePhysicalSelection(provider: string, mode: string, io: FileOutcomes)
      modifies this`file
      ensures file == Restored(old(file), provider, mode, io)
    {
      if io.providerRestored {
        file := Write(file, Provider, provider);
      }
      if io.modeRestored {
        file := Write(file, Mode, mode);
      }
    }

    method CommitUpscalingSelection(provider: Vendor, mode: UpscalingMode, io: FileOutcomes) returns (committed: bool)
      modifies this
      ensures pathKnown == (old(pathKnown) || (provider.IsSelectable() && io.pathResolved))
      ensures !provider.IsSelectable() || !old(IsReady(io)) ==>
                !committed && selection == old(selection) && file == old(file)
      ensures committed ==>
                && selection == Selection(provider, mode)
                && file == WriteBoth(old(file), provider.Key(), mode.Name())
                && ReaderSees(file, provider.Key(), mode.Name())
      ensures !committed && provider.IsSelectable() ==> selection == old(Loaded(io))
      ensures !committed && provider.IsSelectable() && old(IsReady(io)) ==>
                var previousProvider, previousMode := Read(old(file), Provider), Read(old(file), Mode);
                if !io.providerWritten then file == old(file)
                else
                  var first := Write(old(file), Provider, provider.Key());
                  var written := if io.modeWritten then Write(first, Mode, mode.Name()) else first;
                  file == Restored(written, previousProvider, previousMode, io)
      ensures provider.IsSelectable() && old(IsReady(io)) ==>
                (committed <==>
                   && io.providerWritten && io.modeWritten && io.fileOpened && io.flushed && io.readable
                   && var written := WriteBoth(old(file), provider.Key(), mode.Name());
                      |Text(written)| <= MAXIMUM_SIZE && ReaderSees(written, provider.Key(), mode.Name()))
    {
      hide Read, Write, Scanned, Text, Vendor.Key, UpscalingMode.Name, IEquals, Trim;
      if !provider.IsSelectable() {
        return false;
      }
      if !pathKnown {
        var ok := Load(io);
        if !ok {
          return false;
        }
      }
      var previousProvider, previousMode := Read(file, Provider), Read(file, Mode);
      if !io.providerWritten {
        return false;
      }
      file := Write(file, Provider, provider.Key());
      if !io.modeWritten {
        RestorePhysicalSelection(previousProvider, previousMode, io);
        return false;
      }
      file := Write(file, Mode, mode.Name());
      SeenIsNotEmpty(file, provider, mode);
      var durable := VerifyProfileCommit(file, provider.Key(), mode.Name(), io);
      if !durable {
        RestorePhysicalSelection(previousProvider, previousMode, io);
        return false;
      }
      selection := Selection(provider, mode);
      return true;
    }
  }

  lemma SeenIsNotEmpty(lines: seq<string>, provider: Vendor, mode: UpscalingMode)
    requires lines != []
    ensures ReaderSees(lines, provider.Key(), mode.Name()) ==>
              Scanned(Text(lines)).provider != "" && Scanned(Text(lines)).mode != ""
  {
    NamesAreTrimmed(provider, mode);
  }

  // ---------------------------------------------------------------------------------------
  // All or nothing
  // ---------------------------------------------------------------------------------------

  /** A committed selection is also what the profile calls read. */
  lemma CommittedSelectionIsRead(lines: seq<string>, provider: Vendor, mode: UpscalingMode)
    ensures var written := WriteBoth(lines, provider.Key(), mode.Name());
            Read(written, Provider) == provider.Key() && Read(written, Mode) == mode.Name()
  {
    NamesAreTrimmed(provider, mode);
    NamesArePlain(provider, mode);
    hide Vendor.Key, UpscalingMode.Name, IsPlain;
    ReadAfterWriteBoth(lines, provider.Key(), mode.Name());
    PlainReadsBack(provider.Key());
    PlainReadsBack(mode.Name());
  }

  lemma NamesArePlain(provider: Vendor, mode: UpscalingMode)
    ensures IsPlain(provider.Key()) && |provider.Key()| < BUFFER_SIZE
    ensures IsPlain(mode.Name()) && |mode.Name()| < BUFFER_SIZE
  {
    hide Trim, TrimFront, TrimBack;
    NamesAreTrimmed(provider, mode);
  }

  lemma NamesAreLines(provider: Vendor, mode: UpscalingMode)
    ensures IsLine(provider.Key()) && IsLine(mode.Name())
  {
  }

  /** A later entry of the key, in any upscaling section, shows the reader something else. */
  predicate IsOverridden(lines: seq<string>, key: Key, value: string) {
    var overriding := Overriding(Classified(lines), key);
    overriding.Some? && !IEquals(overriding.value, value)
  }

  /** The written selection passes verification exactly when, in the file before the commit, neither key is
      overridden by something other than the choice. */
  lemma CommitIsSeen(lines: seq<string>, provider: Vendor, mode: UpscalingMode)
    requires AreLines(lines)
    ensures ReaderSees(WriteBoth(lines, provider.Key(), mode.Name()), provider.Key(), mode.Name())
            <==> !IsOverridden(lines, Provider, provider.Key()) && !IsOverridden(lines, Mode, mode.Name())
  {
    NamesAreLines(provider, mode);
    NamesAreTrimmed(provider, mode);
    EqualsItself(provider.Key());
    EqualsItself(mode.Name());
    hide Vendor.Key, UpscalingMode.Name, Write, AreLines, Scanned, Text, IEquals, Trim, Classified, Overriding;
    var first := Write(lines, Provider, provider.Key());
    WrittenLinesAreLines(lines, Provider, provider.Key());
    WriteThenScan(lines, Provider, provider.Key());
    WriteThenScan(first, Mode, mode.Name());
    WriteKeepsOther(first, Mode, mode.Name(), Provider);
    WriteKeepsOverriding(lines, Provider, provider.Key(), Mode);
  }

  lemma SecondSectionOverrides(value: string)
    ensures Overriding([Section(true), Section(true), Entry(Provider, value)], Provider) == Some(value)
  {
    var rest := [Section(true), Entry(Provider, value)];
    var view := [Section(true)] + rest;
    SectionIsFirst(view, 0);
    EntryIsFirst(view, 1, Provider, 1);
    assert Below(view, Provider) == rest;
    assert rest[..1] == [Section(true)];
  }

  lemma TwoHeadersClassify(value: string)
    requires IsLine(value)
    ensures var lines := [HEADER, HEADER, EntryLine(Provider, value)];
            && AreLines(lines)
            && Classified(lines) == [Section(true), Section(true), Entry(Provider, Trim(value))]
  {
    HeaderClassifies();
    EntryLineClassifies(Provider, value);
    NameIsLine(Provider);
    hide Classify, Trim;
    assert IsLine(HEADER) && IsLine(EntryLine(Provider, value));
  }

  lemma OtherIsOverriding(lines: seq<string>, value: string, other: string)
    requires Overriding(Classified(lines), Provider) == Some(other) && !IEquals(other, value)
    ensures IsOverridden(lines, Provider, value)
  {
    hide Overriding, Classified, IEquals;
  }

  lemma KeysDiffer(provider: Vendor, other: Vendor)
    ensures IEquals(provider.Key(), other.Key()) <==> provider == other
  {
    if (provider.Amd? && other.NoVendor?) || (provider.NoVendor? && other.Amd?) {
      assert Lower(provider.Key()[0]) != Lower(other.Key()[0]);
    }
  }

  /** A second upscaling section that names a provider blocks the commit of every other one. */
  lemma SecondSectionBlocksCommit(provider: Vendor, other: Vendor, mode: UpscalingMode)
    requires provider != other
    ensures var lines := [HEADER, HEADER, EntryLine(Provider, other.Key())];
            !ReaderSees(WriteBoth(lines, provider.Key(), mode.Name()), provider.Key(), mode.Name())
  {
    hide *;
    var lines := [HEADER, HEADER, EntryLine(Provider, other.Key())];
    NamesAreTrimmed(other, mode);
    NamesAreLines(other, mode);
    TwoHeadersClassify(other.Key());
    SecondSectionOverrides(other.Key());
    KeysDiffer(other, provider);
    OtherIsOverriding(lines, provider.Key(), other.Key());
    CommitIsSeen(lines, provider, mode);
  }

  /** On an ordinary file the written selection passes verification: without file failures, and within
      the size limit, the commit succeeds. */
  lemma OrdinaryCommitIsSeen(lines: seq<string>, provider: Vendor, mode: UpscalingMode)
    requires IsOrdinaryFile(lines)
    ensures ReaderSees(WriteBoth(lines, provider.Key(), mode.Name()), provider.Key(), mode.Name())
  {
    NamesAreLines(provider, mode);
    NamesAreTrimmed(provider, mode);
    EqualsItself(provider.Key());
    EqualsItself(mode.Name());
    hide Vendor.Key, UpscalingMode.Name, Write, Lookup, IsOrdinaryFile, Scanned, Text, IEquals, Trim;
    var first := Write(lines, Provider, provider.Key());
    var written := Write(first, Mode, mode.Name());
    WriteKeepsOrdinary(lines, Provider, provider.Key());
    WriteKeepsOrdinary(first, Mode, mode.Name());
    WriteThenLookup(lines, Provider, provider.Key(), Provider);
    WriteThenLookup(first, Mode, mode.Name(), Provider);
    ReaderAgreesWithLookup(written, Provider);
    ReaderAgreesWithLookup(written, Mode);
  }

  /** What reading returns for a value that was written. */
  function ReadBack(value: string): string {
    Truncated(Unquoted(Trim(value)))
  }

  /** A short value reads back as itself exactly when it has no outer white space and no outer quotes. */
  lemma PlainReadsBack(value: string)
    requires |value| < BUFFER_SIZE
    ensures ReadBack(value) == value <==> IsPlain(value)
  {
    hide TrimFront, TrimBack;
    assert |Trim(value)| <= |value|;
  }

  lemma ReadAfterWriteBoth(lines: seq<string>, provider: string, mode: string)
    ensures Read(WriteBoth(lines, provider, mode), Provider) == ReadBack(provider)
    ensures Read(WriteBoth(lines, provider, mode), Mode) == ReadBack(mode)
  {
    hide Write, Lookup, Trim, Unquoted, Truncated;
    var first := Write(lines, Provider, provider);
    WriteThenLookup(lines, Provider, provider, Provider);
    WriteThenLookup(first, Mode, mode, Provider);
  }

  /** When both restore writes succeed, whatever the commit had written, the file reads as it did before:
      for each key, exactly when the earlier value was plain. */
  lemma RollbackRestoresReading(before: seq<string>, during: seq<string>, io: FileOutcomes)
    requires io.providerRestored && io.modeRestored
    ensures var previousProvider, previousMode := Read(before, Provider), Read(before, Mode);
            var after := Restored(during, previousProvider, previousMode, io);
            && (Read(after, Provider) == previousProvider <==> IsPlain(previousProvider))
            && (Read(after, Mode) == previousMode <==> IsPlain(previousMode))
  {
    hide Read, Write, IsPlain, ReadBack;
    var previousProvider, previousMode := Read(before, Provider), Read(before, Mode);
    assert Restored(during, previousProvider, previousMode, io) == WriteBoth(during, previousProvider, previousMode);
    ReadAfterWriteBoth(during, previousProvider, previousMode);
    PlainReadsBack(previousProvider);
    PlainReadsBack(previousMode);
  }

  /** A value that sits in two pairs of quotes is read without the outer pair, and comes back from a
      rollback without the inner one. */
  lemma DoublyQuotedValueIsLost(during: seq<string>, io: FileOutcomes)
    requires io.providerRestored && io.modeRestored
    ensures var before := Write([], Provider, "\"'x'\"");
            var previousProvider, previousMode := Read(before, Provider), Read(before, Mode);
            && previousProvider == "'x'" && !IsPlain(previousProvider)
            && Read(Restored(during, previousProvider, previousMode, io), Provider) == "x"
  {
    hide Write, Lookup, Trim, TrimFront, TrimBack;
    var before := Write([], Provider, "\"'x'\"");
    WriteThenLookup([], Provider, "\"'x'\"", Provider);
    SolidIsTrimmed("\"'x'\"");
    var previousMode := Read(before, Mode);
    assert Restored(during, "'x'", previousMode, io) == WriteBoth(during, "'x'", previousMode);
    ReadAfterWriteBoth(during, "'x'", previousMode);
    SolidIsTrimmed("'x'");
  }

  /** What the calls read: the default of an absent key, and otherwise its value without one pair of outer
      quotes, cut to the 63 characters that fit the buffer. */
  lemma ReadsExactly(lines: seq<string>, key: Key)
    ensures Lookup(lines, key) == None ==> Read(lines, key) == if key == Provider then "NVIDIA" else "Off"
    ensures Lookup(lines, key).Some? ==>
              var value := Lookup(lines, key).value;
              var bare := if |value| >= 2 && value[0] == value[|value| - 1] && value[0] in ['\'', '"']
                          then value[1..|value| - 1] else value;
              Read(lines, key) == if |bare| <= 63 then bare else bare[..63]
  {
    hide Lookup;
  }

  /** Values shorter than the buffer are read whole, and are plain unless they sit in two pairs of quotes
      or have white space just inside one. */
  lemma ShortValuesArePlain(lines: seq<string>, key: Key)
    ensures Lookup(lines, key) == None ==> IsPlain(Read(lines, key))
    ensures Lookup(lines, key).Some?
            && |Lookup(lines, key).value| < BUFFER_SIZE && !IsQuoted(Lookup(lines, key).value) ==>
              Read(lines, key) == Lookup(lines, key).value && IsPlain(Read(lines, key))
  {
    hide Lookup, Trim, TrimFront, TrimBack;
    if Lookup(lines, key) == None {
      SolidIsTrimmed(key.Default());
    } else {
      LookupIsTrimmed(lines, key);
    }
  }

  lemma LookupIsTrimmed(lines: seq<string>, key: Key)
    requires Lookup(lines, key).Some?
    ensures Trim(Lookup(lines, key).value) == Lookup(lines, key).value
  {
    var view := Classified(lines);
    var index := FindEntry(view, FindSection(view, 0) + 1, key);
    hide FindSection, FindEntry, TrimFront, TrimBack, IEquals;
    assert view[index] == Classify(lines[index]);
    ClassifiedValueIsTrimmed(lines[index]);
  }

  lemma ClassifiedValueIsTrimmed(text: string)
    requires Classify(text).Entry?
    ensures Trim(Classify(text).value) == Classify(text).value
  {
    hide Trim, IEquals;
    var t := Trim(text);
    var separator := IndexOf(t, '=', 0);
    TrimIsStable(t[separator.value + 1..]);
  }
}
