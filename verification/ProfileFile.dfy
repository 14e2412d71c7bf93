/** The INI file behind the settings: the reader that the plugin wrote itself, and the Win32 profile
    calls it reads and writes through. A file is its lines; the calls use the first section with a
    name and the first entry with a key, and reading strips one pair of quotation marks. */
module ProfileFile {
  import opened AsciiText
  import opened Common

  datatype Key = Provider | Mode {
    function Name(): (name: string)
      ensures |name| >= 4 && (name[0] == 'P' || name[0] == 'M') && !IsSpace(name[|name| - 1])
      ensures forall k | 0 <= k < |name| :: name[k] != '='
    {
      if Provider? then "Provider" else "Mode"
    }

    function Default(): string {
      if Provider? then "NVIDIA" else "Off"
    }
  }

  /** What a line is to both readers; entries with other keys are noise. */
  datatype Line = Section(isUpscaling: bool) | Entry(key: Key, value: string) | Noise

  function KeyNamed(name: string): Option<Key> {
    if IEquals(name, "Provider") then Some(Provider)
    else if IEquals(name, "Mode") then Some(Mode)
    else None
  }

  function Classify(text: string): Line {
    var t := Trim(text);
    if t != "" && t[0] == '[' && t[|t| - 1] == ']' then
      Section(IEquals(Trim(t[1..|t| - 1]), "Upscaling"))
    else if t != "" && t[0] != ';' && t[0] != '#' then
      var separator := IndexOf(t, '=', 0);
      if separator == None then Noise
      else
        var key := KeyNamed(Trim(t[..separator.value]));
        if key == None then Noise else Entry(key.value, Trim(t[separator.value + 1..]))
    else Noise
  }

  function Classified(lines: seq<string>): (view: seq<Line>)
    ensures |view| == |lines|
    ensures forall k | 0 <= k < |lines| :: view[k] == Classify(lines[k])
  {
    seq(|lines|, k requires 0 <= k < |lines| => Classify(lines[k]))
  }

  // ---------------------------------------------------------------------------------------
  // The physical reader
  // ---------------------------------------------------------------------------------------

  const MAXIMUM_SIZE: nat := 1024 * 1024

  /** The lines of a text, without their newlines. */
  function Lines(text: string): (lines: seq<string>)
    ensures lines != []
    decreases |text|
  {
    var end := IndexOf(text, '\n', 0);
    if end == None then [text] else [text[..end.value]] + Lines(text[end.value + 1..])
  }

  /** What the reader remembers between lines. */
  datatype Scan = Scan(inSection: bool, provider: string, mode: string)

  const NOTHING: Scan := Scan(false, "", "")

  function ScanLine(scan: Scan, line: Line): Scan {
    match line
    case Section(isUpscaling) => scan.(inSection := isUpscaling)
    case Entry(key, value) =>
      if !scan.inSection then scan
      else if key == Provider then scan.(provider := value)
      else scan.(mode := value)
    case Noise => scan
  }

  /** The last entry of a key in any of the sections wins. */
  function ScanLines(scan: Scan, lines: seq<string>): Scan
    decreases |lines|
  {
    if lines == [] then scan else ScanLines(ScanLine(scan, Classify(lines[0])), lines[1..])
  }

  function Scanned(text: string): Scan {
    ScanLines(NOTHING, Lines(text))
  }

  /** `readable` stands for the size query, the seek and the read. */
  method ReadPhysicalProfileValues(contents: string, readable: bool) returns (ok: bool, values: Scan)
    ensures ok <==>
              && readable && |contents| <= 1048576
              && Scanned(contents).provider != "" && Scanned(contents).mode != ""
    ensures ok ==> values == Scanned(contents)
  {
    values := NOTHING;
    if !readable || |contents| > MAXIMUM_SIZE {
      return false, values;
    }
    values := ScanContents(contents);
    ok := values.provider != "" && values.mode != "";
  }

  lemma ScanStart(contents: string)
    ensures ScanLines(NOTHING, Lines(contents[0..])) == Scanned(contents)
  {
    assert contents[0..] == contents;
  }

  /** The reader's loop over the lines. */
  method ScanContents(contents: string) returns (values: Scan)
    ensures values == Scanned(contents)
  {
    hide *;
    values := NOTHING;
    ScanStart(contents);
    var position := 0;
    while position <= |contents|
      invariant 0 <= position <= |contents|
      invariant ScanLines(values, Lines(contents[position..])) == Scanned(contents)
      decreases |contents| - position
    {
      var end := IndexOf(contents, '\n', position);
      ScanFirstLine(values, contents, position);
      if end == None {
        values := ScanOne(values, contents[position..]);
        break;
      }
      values := ScanOne(values, contents[position..end.value]);
      position := end.value + 1;
    }
  }

  /** The body of the reader's loop, on one line. */
  method ScanOne(scan: Scan, text: string) returns (values: Scan)
    ensures values == ScanLine(scan, Classify(text))
  {
    hide Trim, TrimFront, TrimBack, IEquals;
    values := scan;
    var line := TrimAscii(text);
    if line != "" && line[0] == '[' && line[|line| - 1] == ']' {
      var name := TrimAscii(line[1..|line| - 1]);
      values := values.(inSection := IEquals(name, "Upscaling"));
    } else if values.inSection && line != "" && line[0] != ';' && line[0] != '#' {
      var separator := IndexOf(line, '=', 0);
      if separator.Some? {
        var key := TrimAscii(line[..separator.value]);
        var value := TrimAscii(line[separator.value + 1..]);
        if IEquals(key, "Provider") {
          values := values.(provider := value);
        } else if IEquals(key, "Mode") {
          values := values.(mode := value);
        }
      }
    }
  }

  lemma LinesStep(text: string)
    ensures var end := IndexOf(text, '\n', 0);
            Lines(text) == if end == None then [text] else [text[..end.value]] + Lines(text[end.value + 1..])
  {
  }

  /** The first line from `position` on, and the lines after it. */
  lemma FirstLine(contents: string, position: nat)
    requires position <= |contents|
    ensures var end := IndexOf(contents, '\n', position);
            Lines(contents[position..])
            == if end == None then [contents[position..]]
               else [contents[position..end.value]] + Lines(contents[end.value + 1..])
  {
    hide *;
    var rest := contents[position..];
    var here, end := IndexOf(rest, '\n', 0), IndexOf(contents, '\n', position);
    LinesStep(rest);
    assert forall k | position <= k < |contents| :: contents[k] == rest[k - position];
    assert forall k | 0 <= k < |rest| :: rest[k] == contents[position + k];
    if here.Some? {
      assert end.Some? && end.value == position + here.value;
      assert rest[..here.value] == contents[position..end.value];
      assert rest[here.value + 1..] == contents[end.value + 1..];
    }
  }

  lemma ScanFirstLine(scan: Scan, contents: string, position: nat)
    requires position <= |contents|
    ensures var end := IndexOf(contents, '\n', position);
            ScanLines(scan, Lines(contents[position..]))
            == if end == None then ScanLine(scan, Classify(contents[position..]))
               else ScanLines(ScanLine(scan, Classify(contents[position..end.value])), Lines(contents[end.value + 1..]))
  {
    hide Lines, Classify, ScanLine, IndexOf;
    FirstLine(contents, position);
  }

  /** The text of a file. */
  function Text(lines: seq<string>): string
    requires lines != []
  {
    if |lines| == 1 then lines[0] else lines[0] + "\n" + Text(lines[1..])
  }

  predicate IsLine(s: string) {
    forall k | 0 <= k < |s| :: s[k] != '\n'
  }

  predicate AreLines(lines: seq<string>) {
    forall k | 0 <= k < |lines| :: IsLine(lines[k])
  }

  /** A line, a newline and more text split at that newline. */
  lemma SplitsAtNewline(first: string, rest: string)
    requires IsLine(first)
    ensures Lines(first + "\n" + rest) == [first] + Lines(rest)
  {
    hide IndexOf, Lines;
    var text := first + "\n" + rest;
    LinesStep(text);
    assert forall k | 0 <= k < |first| :: text[k] == first[k];
    assert text[|first|] == '\n';
    assert IndexOf(text, '\n', 0) == Some(|first|);
    assert text[..|first|] == first && text[|first| + 1..] == rest;
  }

  /** Splitting the text of a file gives its lines back. */
  lemma {:induction false} LinesOfText(lines: seq<string>)
    requires lines != [] && AreLines(lines)
    ensures Lines(Text(lines)) == lines
  {
    assert IsLine(lines[0]);
    if |lines| > 1 {
      LinesOfText(lines[1..]);
      SplitsAtNewline(lines[0], Text(lines[1..]));
    }
  }

  // ---------------------------------------------------------------------------------------
  // The Win32 profile calls
  // ---------------------------------------------------------------------------------------

  const BUFFER_SIZE: nat := 64

  predicate HasKey(line: Line, key: Key) {
    line.Entry? && line.key == key
  }

  predicate EndsSearch(line: Line, key: Key) {
    line.Section? || HasKey(line, key)
  }

  function FindSection(view: seq<Line>, from: nat): (index: nat)
    requires from <= |view|
    ensures from <= index <= |view|
    ensures forall k | from <= k < index :: view[k] != Section(true)
    ensures index < |view| ==> view[index] == Section(true)
    decreases |view| - from
  {
    if from == |view| || view[from] == Section(true) then from else FindSection(view, from + 1)
  }

  /** The first entry with the key from `from` on, or the end of the section if there is none. */
  function FindEntry(view: seq<Line>, from: nat, key: Key): (index: nat)
    requires from <= |view|
    ensures from <= index <= |view|
    ensures forall k | from <= k < index :: !EndsSearch(view[k], key)
    ensures index < |view| ==> EndsSearch(view[index], key)
    decreases |view| - from
  {
    if from == |view| || EndsSearch(view[from], key) then from else FindEntry(view, from + 1, key)
  }

  /** The value the profile calls find for a key. */
  function LookupIn(view: seq<Line>, key: Key): Option<string> {
    var section := FindSection(view, 0);
    if section == |view| then None
    else
      var index := FindEntry(view, section + 1, key);
      if index < |view| && HasKey(view[index], key) then Some(view[index].value) else None
  }

  function Lookup(lines: seq<string>, key: Key): Option<string> {
    LookupIn(Classified(lines), key)
  }

  const HEADER: string := "[" + "Upscaling" + "]"

  function EntryLine(key: Key, value: string): string {
    key.Name() + "=" + value
  }

  /** Where and how a write changes a sequence of lines, given what they are. */
  function Placed<T>(items: seq<T>, view: seq<Line>, key: Key, header: T, item: T): (placed: seq<T>)
    requires |items| == |view|
    ensures placed != []
  {
    var section := FindSection(view, 0);
    if section == |view| then items + [header, item]
    else
      var index := FindEntry(view, section + 1, key);
      if index < |view| && HasKey(view[index], key) then items[index := item]
      else items[..index] + [item] + items[index..]
  }

  /** `WritePrivateProfileStringW`: replaces the entry, adds it to the section, or adds both. */
  function Write(lines: seq<string>, key: Key, value: string): (written: seq<string>)
    ensures written != []
  {
    Placed(lines, Classified(lines), key, HEADER, EntryLine(key, value))
  }

  predicate IsQuoted(s: string) {
    |s| >= 2 && s[0] == s[|s| - 1] && (s[0] == '"' || s[0] == '\'')
  }

  function Unquoted(s: string): string {
    if IsQuoted(s) then s[1..|s| - 1] else s
  }

  function Truncated(s: string): string {
    if |s| < BUFFER_SIZE then s else s[..BUFFER_SIZE - 1]
  }

  /** `GetPrivateProfileStringW` with the buffers and defaults of the source. */
  function Read(lines: seq<string>, key: Key): (value: string)
    ensures |value| < BUFFER_SIZE
  {
    match Lookup(lines, key)
    case Some(value) => Truncated(Unquoted(value))
    case None => key.Default()
  }

  lemma EntryLineClassifies(key: Key, value: string)
    ensures Classify(EntryLine(key, value)) == Entry(key, Trim(value))
  {
    TrimEntryLine(key, value);
    TrimIsStable(value);
    hide *;
    EntryTextClassifies(key, TrimBack(value), EntryLine(key, value));
  }

  lemma TrimEntryLine(key: Key, value: string)
    ensures Trim(EntryLine(key, value)) == key.Name() + "=" + TrimBack(value)
  {
    assert EntryLine(key, value) == key.Name() + "=" + value;
    hide *;
    TrimSolidPrefix(key.Name() + "=", value);
  }

  lemma TrimSolidPrefix(prefix: string, value: string)
    requires prefix != "" && !IsSpace(prefix[0]) && !IsSpace(prefix[|prefix| - 1])
    ensures Trim(prefix + value) == prefix + TrimBack(value)
  {
    var line := prefix + value;
    assert Trim(line) == TrimBack(TrimFront(line));
    TrimFrontStep(line);
    hide TrimFront, TrimBack, Trim;
    TrimBackAppend(prefix, value);
  }

  lemma SolidIsTrimmed(s: string)
    requires s != "" && !IsSpace(s[0]) && !IsSpace(s[|s| - 1])
    ensures Trim(s) == s
  {
  }

  lemma EqualsItself(s: string)
    ensures IEquals(s, s)
  {
  }

  lemma NamesAreNamed(key: Key)
    ensures Trim(key.Name()) == key.Name() && KeyNamed(key.Name()) == Some(key)
  {
    SolidIsTrimmed(key.Name());
    EqualsItself(key.Name());
    hide Trim, TrimFront, TrimBack;
    assert |"Provider"| == 8 && |"Mode"| == 4;
  }

  lemma EntryTextClassifies(key: Key, rest: string, line: string)
    requires Trim(line) == key.Name() + "=" + rest
    ensures Classify(line) == Entry(key, Trim(rest))
  {
    NamesAreNamed(key);
    hide Trim, IEquals, KeyNamed, key.Name;
    var name, t := key.Name(), Trim(line);
    assert forall k | 0 <= k < |name| :: t[k] == name[k];
    assert t[|name|] == '=';
    assert IndexOf(t, '=', 0) == Some(|name|);
    assert t[..|name|] == name && t[|name| + 1..] == rest;
  }

  lemma BracketsClassify(text: string, name: string)
    requires Trim(text) == "[" + name + "]"
    ensures Classify(text) == Section(IEquals(Trim(name), "Upscaling"))
  {
    hide Trim, IEquals, KeyNamed, IndexOf;
    var t := Trim(text);
    assert t[1..|t| - 1] == name;
  }

  lemma HeaderClassifies()
    ensures Classify(HEADER) == Section(true)
  {
    hide Classify, IEquals, Trim;
    SolidIsTrimmed(HEADER);
    SolidIsTrimmed("Upscaling");
    EqualsItself("Upscaling");
    BracketsClassify(HEADER, "Upscaling");
  }

  lemma ClassifiesByTrim(text: string, other: string)
    requires Trim(text) == Trim(other)
    ensures Classify(text) == Classify(other)
  {
    hide Trim, IEquals, KeyNamed, IndexOf;
  }

  /** A line reads alike with and without a carriage return at its end. */
  lemma CarriageReturnIsIgnored(text: string)
    ensures Classify(text + ['\r']) == Classify(text)
  {
    assert IsSpace('\r');
    hide *;
    TrimIgnoresAppended(text, '\r');
    ClassifiesByTrim(text + ['\r'], text);
  }

  /** A line that starts with a semicolon or a number sign is neither a section nor an entry. */
  lemma CommentsAreNoise(text: string)
    requires Trim(text) != "" && Trim(text)[0] in [';', '#']
    ensures Classify(text) == Noise
  {
    hide Trim, IEquals, KeyNamed, IndexOf;
  }

  /** Any name in brackets heads a section; the upscaling one by its name, in any letter case. */
  lemma NamedHeaderClassifies(name: string)
    ensures Classify("[" + name + "]") == Section(IEquals(Trim(name), "Upscaling"))
  {
    var text := "[" + name + "]";
    SolidIsTrimmed(text);
    BracketsClassify(text, name);
  }

  lemma {:induction false} OutsideIsSkipped(scan: Scan, body: seq<string>)
    requires !scan.inSection && forall k | 0 <= k < |body| :: !Classify(body[k]).Section?
    ensures ScanLines(scan, body) == scan
    decreases |body|
  {
    hide Classify;
    if body != [] {
      assert ScanLine(scan, Classify(body[0])) == scan;
      OutsideIsSkipped(scan, body[1..]);
    }
  }

  /** The entries under a section of another name are not read. */
  lemma ForeignSectionIsSkipped(scan: Scan, name: string, body: seq<string>)
    requires !IEquals(Trim(name), "Upscaling")
    requires forall k | 0 <= k < |body| :: !Classify(body[k]).Section?
    ensures ScanLines(scan, ["[" + name + "]"] + body) == scan.(inSection := false)
  {
    hide Classify, Trim, IEquals;
    var lines := ["[" + name + "]"] + body;
    NamedHeaderClassifies(name);
    OutsideIsSkipped(scan.(inSection := false), body);
    assert lines[1..] == body && ScanLine(scan, Section(false)) == scan.(inSection := false);
  }

  lemma SectionIsFirst(view: seq<Line>, section: nat)
    requires section <= |view|
    requires forall k | 0 <= k < section :: view[k] != Section(true)
    requires section < |view| ==> view[section] == Section(true)
    ensures FindSection(view, 0) == section
  {
  }

  lemma EntryIsFirst(view: seq<Line>, from: nat, key: Key, index: nat)
    requires from <= index <= |view|
    requires forall k | from <= k < index :: !EndsSearch(view[k], key)
    requires index < |view| ==> EndsSearch(view[index], key)
    ensures FindEntry(view, from, key) == index
  {
  }

  lemma PlacedThenLookup(view: seq<Line>, key: Key, value: string)
    ensures LookupIn(Placed(view, view, key, Section(true), Entry(key, value)), key) == Some(value)
  {
    var placed, section := Placed(view, view, key, Section(true), Entry(key, value)), FindSection(view, 0);
    hide FindSection, FindEntry;
    SectionIsFirst(placed, section);
    EntryIsFirst(placed, section + 1, key,
                 if section == |view| then section + 1 else FindEntry(view, section + 1, key));
  }

  lemma PlacedKeepsOther(view: seq<Line>, key: Key, value: string, other: Key)
    requires other != key
    ensures LookupIn(Placed(view, view, key, Section(true), Entry(key, value)), other) == LookupIn(view, other)
  {
    var section := FindSection(view, 0);
    hide FindSection, FindEntry;
    if section == |view| {
      var placed := view + [Section(true), Entry(key, value)];
      SectionIsFirst(placed, section);
      EntryIsFirst(placed, section + 1, other, section + 2);
    } else {
      var index := FindEntry(view, section + 1, key);
      if index < |view| && HasKey(view[index], key) {
        ReplacedKeepsOther(view, section, index, key, value, other);
      } else {
        InsertedKeepsOther(view, section, index, key, value, other);
      }
    }
  }

  lemma ReplacedKeepsOther(view: seq<Line>, section: nat, index: nat, key: Key, value: string, other: Key)
    requires other != key && section == FindSection(view, 0) < index < |view| && HasKey(view[index], key)
    ensures LookupIn(view[index := Entry(key, value)], other) == LookupIn(view, other)
  {
    hide FindSection, FindEntry;
    var placed, found := view[index := Entry(key, value)], FindEntry(view, section + 1, other);
    SectionIsFirst(placed, section);
    EntryIsFirst(placed, section + 1, other, found);
  }

  lemma InsertedKeepsOther(view: seq<Line>, section: nat, index: nat, key: Key, value: string, other: Key)
    requires other != key && section == FindSection(view, 0) < |view|
    requires section < index == FindEntry(view, section + 1, key)
    requires index < |view| ==> view[index].Section?
    ensures LookupIn(view[..index] + [Entry(key, value)] + view[index..], other) == LookupIn(view, other)
  {
    hide FindSection, FindEntry;
    var placed := view[..index] + [Entry(key, value)] + view[index..];
    var found := FindEntry(view, section + 1, other);
    SectionIsFirst(placed, section);
    assert found <= index;
    EntryIsFirst(placed, section + 1, other, if found < index then found else found + 1);
  }

  lemma WriteClassifies(lines: seq<string>, key: Key, value: string)
    ensures Classified(Write(lines, key, value))
            == Placed(Classified(lines), Classified(lines), key, Section(true), Entry(key, Trim(value)))
  {
    EntryLineClassifies(key, value);
    HeaderClassifies();
    hide Classify, EntryLine, Trim;
    PlacedClassifies(lines, key, HEADER, EntryLine(key, value));
  }

  lemma PlacedClassifies(lines: seq<string>, key: Key, header: string, line: string)
    ensures var view := Classified(lines);
            Classified(Placed(lines, view, key, header, line))
            == Placed(view, view, key, Classify(header), Classify(line))
  {
    hide Classify, FindSection, FindEntry, HasKey;
  }

  /** A written key reads back trimmed, and writing one key leaves the other as it was. */
  lemma WriteThenLookup(lines: seq<string>, key: Key, value: string, other: Key)
    ensures Lookup(Write(lines, key, value), key) == Some(Trim(value))
    ensures other != key ==> Lookup(Write(lines, key, value), other) == Lookup(lines, other)
  {
    assert Lookup(Write(lines, key, value), key) == LookupIn(Classified(Write(lines, key, value)), key);
    assert Lookup(Write(lines, key, value), other) == LookupIn(Classified(Write(lines, key, value)), other);
    assert Lookup(lines, other) == LookupIn(Classified(lines), other);
    hide *;
    WriteClassifies(lines, key, value);
    PlacedThenLookup(Classified(lines), key, Trim(value));
    if other != key {
      PlacedKeepsOther(Classified(lines), key, Trim(value), other);
    }
  }

  /** A value that a further read would return unchanged: no outer white space and no outer quotes. */
  predicate IsPlain(value: string) {
    Trim(value) == value && !IsQuoted(value)
  }

  // ---------------------------------------------------------------------------------------
  // Where the reader and the profile calls agree
  // ---------------------------------------------------------------------------------------

  function FindEnd(view: seq<Line>, from: nat): (index: nat)
    requires from <= |view|
    ensures from <= index <= |view|
    ensures forall k | from <= k < index :: !view[k].Section?
    ensures index < |view| ==> view[index].Section?
    decreases |view| - from
  {
    if from == |view| || view[from].Section? then from else FindEnd(view, from + 1)
  }

  /** At most one upscaling section, with each key at most once in it. */
  ghost predicate IsOrdinary(view: seq<Line>) {
    var section := FindSection(view, 0);
    section < |view| ==>
      var end := FindEnd(view, section + 1);
      && (forall k | end <= k < |view| :: view[k] != Section(true))
      && (forall i, j | section < i < j < end && view[i].Entry? && view[j].Entry? :: view[i].key != view[j].key)
  }

  /** The reader on classified lines. */
  function ScanView(scan: Scan, view: seq<Line>): Scan {
    if view == [] then scan else ScanLine(ScanView(scan, view[..|view| - 1]), view[|view| - 1])
  }

  lemma {:induction false} ScanLinesIsScanView(front: seq<string>, rest: seq<string>)
    ensures ScanLines(ScanView(NOTHING, Classified(front)), rest) == ScanView(NOTHING, Classified(front + rest))
    decreases |rest|
  {
    if rest == [] {
      assert front + rest == front;
    } else {
      var longer := front + [rest[0]];
      assert Classified(longer)[..|front|] == Classified(front);
      assert longer + rest[1..] == front + rest;
      ScanLinesIsScanView(longer, rest[1..]);
    }
  }

  function Field(scan: Scan, key: Key): string {
    if key == Provider then scan.provider else scan.mode
  }

  /** The reader's state after the first `n` lines of an ordinary file. */
  lemma {:induction false} ScanOfPrefix(view: seq<Line>, n: nat, key: Key, section: nat, end: nat, index: nat)
    requires n <= |view| && IsOrdinary(view)
    requires section == FindSection(view, 0) < |view| && end == FindEnd(view, section + 1)
    requires index == FindEntry(view, section + 1, key)
    ensures ScanView(NOTHING, view[..n]).inSection <==> section < n <= end
    ensures Field(ScanView(NOTHING, view[..n]), key)
            == if index < n && HasKey(view[index], key) then view[index].value else ""
  {
    hide FindSection, FindEnd, FindEntry;
    if n > 0 {
      ScanOfPrefix(view, n - 1, key, section, end, index);
      assert view[..n][..n - 1] == view[..n - 1] && view[..n][n - 1] == view[n - 1];
      assert end < |view| ==> EndsSearch(view[end], key);
      assert index <= end;
    }
  }

  lemma {:induction false} NoSectionNoFields(view: seq<Line>, n: nat)
    requires n <= |view| && forall k | 0 <= k < |view| :: view[k] != Section(true)
    ensures ScanView(NOTHING, view[..n]) == NOTHING
  {
    if n > 0 {
      NoSectionNoFields(view, n - 1);
      assert view[..n][..n - 1] == view[..n - 1] && view[..n][n - 1] == view[n - 1];
    }
  }

  /** On an ordinary file the reader finds what the profile calls find. */
  lemma OrdinaryFileReadsAlike(view: seq<Line>, key: Key)
    requires IsOrdinary(view)
    ensures Field(ScanView(NOTHING, view), key) == match LookupIn(view, key) case Some(value) => value case None => ""
  {
    assert view[..|view|] == view;
    var section := FindSection(view, 0);
    if section == |view| {
      NoSectionNoFields(view, |view|);
    } else {
      ScanOfPrefix(view, |view|, key, section, FindEnd(view, section + 1), FindEntry(view, section + 1, key));
    }
  }

  lemma EndIsFirst(view: seq<Line>, from: nat, index: nat)
    requires from <= index <= |view|
    requires forall k | from <= k < index :: !view[k].Section?
    requires index < |view| ==> view[index].Section?
    ensures FindEnd(view, from) == index
  {
  }

  /** Writing keeps a file ordinary. */
  lemma PlacedIsOrdinary(view: seq<Line>, key: Key, value: string)
    requires IsOrdinary(view)
    ensures IsOrdinary(Placed(view, view, key, Section(true), Entry(key, value)))
  {
    var item, section := Entry(key, value), FindSection(view, 0);
    hide FindSection, FindEntry, FindEnd, IsOrdinary;
    if section == |view| {
      AppendedIsOrdinary(view, item);
    } else {
      var index, end := FindEntry(view, section + 1, key), FindEnd(view, section + 1);
      if index < |view| && HasKey(view[index], key) {
        ReplacedIsOrdinary(view, section, end, index, item);
      } else {
        InsertedIsOrdinary(view, section, index, item);
      }
    }
  }

  lemma AppendedIsOrdinary(view: seq<Line>, item: Line)
    requires FindSection(view, 0) == |view| && item.Entry?
    ensures IsOrdinary(view + [Section(true), item])
  {
    hide FindSection, FindEnd;
    var placed := view + [Section(true), item];
    SectionIsFirst(placed, |view|);
    EndIsFirst(placed, |view| + 1, |view| + 2);
  }

  lemma ReplacedIsOrdinary(view: seq<Line>, section: nat, end: nat, index: nat, item: Line)
    requires IsOrdinary(view) && section == FindSection(view, 0) < index < |view|
    requires end == FindEnd(view, section + 1)
    requires item.Entry? && HasKey(view[index], item.key)
    ensures IsOrdinary(view[index := item])
  {
    hide FindSection, FindEnd;
    SectionIsFirst(view[index := item], section);
    EndIsFirst(view[index := item], section + 1, end);
  }

  lemma InsertedIsOrdinary(view: seq<Line>, section: nat, index: nat, item: Line)
    requires IsOrdinary(view) && section == FindSection(view, 0) < |view| && item.Entry?
    requires section < index == FindEntry(view, section + 1, item.key)
    requires index < |view| ==> view[index].Section?
    ensures IsOrdinary(view[..index] + [item] + view[index..])
  {
    hide FindSection, FindEntry, FindEnd;
    var placed := view[..index] + [item] + view[index..];
    EndIsFirst(view, section + 1, index);
    SectionIsFirst(placed, section);
    EndIsFirst(placed, section + 1, index + 1);
  }

  /** A write keeps the lines of a file lines. */
  lemma WrittenLinesAreLines(lines: seq<string>, key: Key, value: string)
    requires AreLines(lines) && IsLine(value)
    ensures AreLines(Write(lines, key, value))
  {
    NameIsLine(key);
    hide FindSection, FindEntry, Classify;
    assert IsLine(EntryLine(key, value));
    assert IsLine(HEADER);
  }

  lemma NameIsLine(key: Key)
    ensures IsLine(key.Name())
  {
  }

  /** The file is made of lines, and is ordinary. */
  ghost predicate IsOrdinaryFile(lines: seq<string>) {
    AreLines(lines) && IsOrdinary(Classified(lines))
  }

  lemma WriteKeepsOrdinary(lines: seq<string>, key: Key, value: string)
    requires IsOrdinaryFile(lines) && IsLine(value)
    ensures IsOrdinaryFile(Write(lines, key, value))
  {
    hide Classify, Write, Placed, IsOrdinary, Trim;
    WrittenLinesAreLines(lines, key, value);
    WriteClassifies(lines, key, value);
    PlacedIsOrdinary(Classified(lines), key, Trim(value));
  }

  lemma ScannedIsScanView(lines: seq<string>)
    requires lines != [] && AreLines(lines)
    ensures Scanned(Text(lines)) == ScanView(NOTHING, Classified(lines))
  {
    LinesOfText(lines);
    assert Scanned(Text(lines)) == ScanLines(NOTHING, lines);
    assert ScanView(NOTHING, Classified([])) == NOTHING;
    hide *;
    ScanLinesIsScanView([], lines);
    assert [] + lines == lines;
  }

  /** In an ordinary file, the text that the reader scans shows the values the profile calls find. */
  lemma ReaderAgreesWithLookup(lines: seq<string>, key: Key)
    requires lines != [] && IsOrdinaryFile(lines)
    ensures Field(Scanned(Text(lines)), key) == match Lookup(lines, key) case Some(value) => value case None => ""
  {
    assert AreLines(lines) && IsOrdinary(Classified(lines));
    assert Lookup(lines, key) == LookupIn(Classified(lines), key);
    hide *;
    ScannedIsScanView(lines);
    OrdinaryFileReadsAlike(Classified(lines), key);
  }
}
