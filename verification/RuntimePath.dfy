/** Lexical containment of a runtime below a plugin root. A path is a root name, a root directory
    and its file names; a trailing separator shows as a last, empty name. The lexical operations
    follow clauses [fs.path.generic] and [fs.path.gen] of ISO/IEC 14882, on Windows. */
module RuntimePath {

  datatype Path = Path(rootName: string, rootDirectory: bool, names: seq<string>) {
    predicate IsEmpty() {
      rootName == "" && !rootDirectory && names == []
    }

    predicate IsAbsolute() {
      rootName != "" && rootDirectory
    }
  }

  const EMPTY: Path := Path("", false, [])
  const DOT: Path := Path("", false, ["."])

  // ---------------------------------------------------------------------------------------
  // Lexical operations
  // ---------------------------------------------------------------------------------------

  /** The names left when dots, and names followed by dot-dot, are removed. */
  function Collapsed(names: seq<string>, rooted: bool): seq<string> {
    if names == [] then []
    else
      var kept, name := Collapsed(names[..|names| - 1], rooted), names[|names| - 1];
      if name == "" || name == "." then kept
      else if name != ".." then kept + [name]
      else if kept != [] && kept[|kept| - 1] != ".." then kept[..|kept| - 1]
      else if rooted then kept
      else kept + [name]
  }

  predicate EndsInSeparator(names: seq<string>) {
    names != [] && names[|names| - 1] in ["", ".", ".."]
  }

  /** `lexically_normal`. */
  function Normal(path: Path): Path {
    if path.IsEmpty() then path
    else
      var kept := Collapsed(path.names, path.rootDirectory);
      if kept == [] then
        path.(names := if path.rootName == "" && !path.rootDirectory then ["."] else [])
      else if EndsInSeparator(path.names) && kept[|kept| - 1] != ".." then path.(names := kept + [""])
      else path.(names := kept)
  }

  /** How many leading names two sequences share. */
  function SharedPrefix(a: seq<string>, b: seq<string>): (k: nat)
    ensures k <= |a| && k <= |b| && a[..k] == b[..k]
    ensures k < |a| && k < |b| ==> a[k] != b[k]
  {
    if a == [] || b == [] || a[0] != b[0] then 0
    else
      var k := SharedPrefix(a[1..], b[1..]) + 1;
      assert a[..k] == [a[0]] + a[1..][..k - 1] && b[..k] == [b[0]] + b[1..][..k - 1];
      k
  }

  /** Levels to climb out of these names: dot-dot climbs back, dots and empty names do not count. */
  function Climb(names: seq<string>): int {
    if names == [] then 0
    else
      Climb(names[..|names| - 1]) +
      (var name := names[|names| - 1];
       if name == ".." then -1 else if name == "." || name == "" then 0 else 1)
  }

  predicate HasDrivePrefix(name: string) {
    |name| >= 2 && ('a' <= name[0] <= 'z' || 'A' <= name[0] <= 'Z') && name[1] == ':'
  }

  /** A drive is a Latin letter and a colon, and whatever follows. */
  lemma DrivesByLetter(name: string)
    ensures HasDrivePrefix(name)
            <==> && |name| >= 2 && name[1] == ':'
                 && (name[0] in "abcdefghijklmnopqrstuvwxyz" || name[0] in "ABCDEFGHIJKLMNOPQRSTUVWXYZ")
  {
    LettersInOrder("abcdefghijklmnopqrstuvwxyz", 'a');
    LettersInOrder("ABCDEFGHIJKLMNOPQRSTUVWXYZ", 'A');
  }

  /** Consecutive characters from `first` on are a range. */
  lemma LettersInOrder(letters: string, first: char)
    requires forall k | 0 <= k < |letters| :: letters[k] as int == first as int + k
    ensures forall c: char :: c in letters <==> first as int <= c as int < first as int + |letters|
  {
    forall c: char
      ensures c in letters <==> first as int <= c as int < first as int + |letters|
    {
      if first as int <= c as int < first as int + |letters| {
        assert letters[c as int - first as int] == c;
      }
    }
  }

  function DotDots(n: nat): (names: seq<string>)
    ensures |names| == n && forall k | 0 <= k < n :: names[k] == ".."
  {
    seq(n, _ => "..")
  }

  predicate HasDrive(names: seq<string>) {
    exists name :: name in names && HasDrivePrefix(name)
  }

  /** What `lexically_relative` makes of the names behind a common root. */
  function RelativeNames(names: seq<string>, base: seq<string>): Path {
    var k := SharedPrefix(names, base);
    var rest, climb := names[k..], Climb(base[k..]);
    if rest == [] && k == |base| then DOT
    else if climb < 0 then EMPTY
    else if climb == 0 && (rest == [] || rest[0] == "") then DOT
    else Path("", false, DotDots(climb) + rest)
  }

  /** `lexically_relative`. */
  function Relative(path: Path, base: Path): Path {
    if path.rootName != base.rootName || path.IsAbsolute() != base.IsAbsolute()
       || (!path.rootDirectory && base.rootDirectory)
       || HasDrive(path.names + base.names) then EMPTY
    else if path.rootDirectory != base.rootDirectory then
      // The names part at the root directory, which then replaces what was climbed.
      if Climb(base.names) < 0 then EMPTY else Path("", true, path.names)
    else RelativeNames(path.names, base.names)
  }

  predicate PointsInside(relative: Path) {
    !relative.IsEmpty() && !relative.IsAbsolute() && relative != DOT && ".." !in relative.names
  }

  predicate IsStrictDescendant(base: Path, candidate: Path) {
    !base.IsEmpty() && !candidate.IsEmpty() && PointsInside(Relative(Normal(candidate), Normal(base)))
  }

  // ---------------------------------------------------------------------------------------
  // Walks
  // ---------------------------------------------------------------------------------------

  /** Where following some names ends up: so many levels above the start, then down these directories. */
  datatype Walk = Walk(ups: nat, directories: seq<string>)

  ghost predicate IsClean(directories: seq<string>) {
    forall name | name in directories :: name !in ["", ".", ".."]
  }

  /** A walk that starts at a root directory cannot rise above it. */
  function WalkOf(names: seq<string>, rooted: bool): (walk: Walk)
    ensures IsClean(walk.directories)
    ensures rooted ==> walk.ups == 0
  {
    if names == [] then Walk(0, [])
    else
      var at, name := WalkOf(names[..|names| - 1], rooted), names[|names| - 1];
      if name == "" || name == "." then at
      else if name != ".." then at.(directories := at.directories + [name])
      else if at.directories != [] then at.(directories := at.directories[..|at.directories| - 1])
      else if rooted then at
      else at.(ups := at.ups + 1)
  }

  function WalkOfPath(path: Path): Walk {
    WalkOf(path.names, path.rootDirectory)
  }

  predicate IsProperPrefix(a: seq<string>, b: seq<string>) {
    |a| < |b| && a == b[..|a|]
  }

  lemma {:induction false} CollapsedIsWalk(names: seq<string>, rooted: bool)
    ensures var walk := WalkOf(names, rooted);
            Collapsed(names, rooted) == DotDots(walk.ups) + walk.directories
  {
    if names != [] {
      CollapsedIsWalk(names[..|names| - 1], rooted);
      var at, kept := WalkOf(names[..|names| - 1], rooted), Collapsed(names[..|names| - 1], rooted);
      if at.directories == [] {
        assert kept == DotDots(at.ups);
        assert DotDots(at.ups + 1) == DotDots(at.ups) + [".."];
      } else {
        assert kept[|kept| - 1] == at.directories[|at.directories| - 1];
        assert at.directories[|at.directories| - 1] in at.directories;
      }
    }
  }

  /** The names below the levels climbed: the directories, perhaps with a trailing separator, or a dot. */
  ghost predicate Spells(names: seq<string>, directories: seq<string>) {
    || names == directories
    || (directories != [] && names == directories + [""])
    || (directories == [] && names == ["."])
  }

  /** Names that climb as far as the walk and then spell its directories. */
  ghost predicate Follows(names: seq<string>, walk: Walk) {
    && |names| >= walk.ups && names[..walk.ups] == DotDots(walk.ups)
    && Spells(names[walk.ups..], walk.directories)
  }

  lemma CollapsedFollows(names: seq<string>, walk: Walk)
    requires var kept := DotDots(walk.ups) + walk.directories;
             || names == kept || (walk.directories != [] && names == kept + [""])
             || (kept == [] && names == ["."])
    ensures Follows(names, walk)
  {
    var kept := DotDots(walk.ups) + walk.directories;
    assert |kept| == walk.ups + |walk.directories|;
    assert names[..walk.ups] == DotDots(walk.ups);
    assert names == kept ==> names[walk.ups..] == walk.directories;
    assert names == kept + [""] ==> names[walk.ups..] == walk.directories + [""];
    assert kept == [] ==> names[walk.ups..] == names;
  }

  /** A normal path follows its walk. */
  lemma NormalFollowsWalk(path: Path)
    ensures Normal(path).rootName == path.rootName && Normal(path).rootDirectory == path.rootDirectory
    ensures Follows(Normal(path).names, WalkOfPath(path))
  {
    CollapsedIsWalk(path.names, path.rootDirectory);
    assert path.names == [] ==> Collapsed(path.names, path.rootDirectory) == [];
    hide WalkOf, Collapsed, Follows;
    var walk, kept := WalkOfPath(path), Collapsed(path.names, path.rootDirectory);
    assert kept == DotDots(walk.ups) + walk.directories;
    if kept != [] && walk.directories == [] {
      assert kept[|kept| - 1] == "..";
    }
    CollapsedFollows(Normal(path).names, walk);
  }

  /** The names of a normal path: those of its walk, with a trailing separator when the path ended in one, in a
      dot or in a dot-dot below a directory; a dot when nothing is left of a path without a root. */
  lemma NormalIsExact(path: Path)
    ensures
      var walk := WalkOfPath(path);
      var spelled := DotDots(walk.ups) + walk.directories;
      Normal(path).names
      == if spelled == [] then
           if path.names != [] && path.rootName == "" && !path.rootDirectory then ["."] else []
         else if walk.directories != [] && path.names[|path.names| - 1] in ["", ".", ".."] then spelled + [""]
         else spelled
  {
    CollapsedIsWalk(path.names, path.rootDirectory);
    assert path.names == [] ==> Collapsed(path.names, path.rootDirectory) == [];
    hide WalkOf, Collapsed;
    var walk, kept := WalkOfPath(path), Collapsed(path.names, path.rootDirectory);
    if kept != [] {
      assert kept[|kept| - 1] == if walk.directories == [] then ".." else walk.directories[|walk.directories| - 1];
      assert walk.directories != [] ==> walk.directories[|walk.directories| - 1] in walk.directories;
    }
  }

  // ---------------------------------------------------------------------------------------
  // Climbing and sharing
  // ---------------------------------------------------------------------------------------

  lemma {:induction false} ClimbAdds(front: seq<string>, rest: seq<string>)
    ensures Climb(front + rest) == Climb(front) + Climb(rest)
  {
    if rest == [] {
      assert front + rest == front;
    } else {
      assert (front + rest)[..|front + rest| - 1] == front + rest[..|rest| - 1];
      ClimbAdds(front, rest[..|rest| - 1]);
    }
  }

  lemma {:induction false} ClimbOfDotDots(n: nat)
    ensures Climb(DotDots(n)) == 0 - n
  {
    if n > 0 {
      assert DotDots(n)[..n - 1] == DotDots(n - 1);
      ClimbOfDotDots(n - 1);
    }
  }

  lemma {:induction false} ClimbOfDirectories(directories: seq<string>)
    requires IsClean(directories)
    ensures Climb(directories) == |directories|
  {
    if directories != [] {
      assert directories[|directories| - 1] in directories;
      ClimbOfDirectories(directories[..|directories| - 1]);
    }
  }

  lemma ClimbOfSpelling(names: seq<string>, directories: seq<string>)
    requires Spells(names, directories) && IsClean(directories)
    ensures Climb(names) == |directories|
  {
    ClimbOfDirectories(directories);
    assert (directories + [""])[..|directories|] == directories;
    assert Climb([""]) == 0 && Climb(["."]) == 0;
    ClimbAdds(directories, [""]);
  }

  lemma ClimbOfWalk(names: seq<string>, walk: Walk)
    requires Follows(names, walk) && IsClean(walk.directories)
    ensures Climb(names) == |walk.directories| - walk.ups
  {
    hide Climb, DotDots, Spells, IsClean;
    assert names == names[..walk.ups] + names[walk.ups..];
    ClimbAdds(names[..walk.ups], names[walk.ups..]);
    ClimbOfDotDots(walk.ups);
    ClimbOfSpelling(names[walk.ups..], walk.directories);
  }

  lemma {:induction false} SharedBehind(front: seq<string>, a: seq<string>, b: seq<string>)
    ensures SharedPrefix(front + a, front + b) == |front| + SharedPrefix(a, b)
  {
    if front == [] {
      assert front + a == a && front + b == b;
    } else {
      assert (front + a)[1..] == front[1..] + a && (front + b)[1..] == front[1..] + b;
      SharedBehind(front[1..], a, b);
    }
  }

  /** Names that both start with do not matter. */
  lemma RelativeBehind(front: seq<string>, a: seq<string>, b: seq<string>)
    ensures RelativeNames(front + a, front + b) == RelativeNames(a, b)
  {
    hide SharedPrefix, Climb;
    SharedBehind(front, a, b);
    var k := SharedPrefix(a, b);
    assert (front + a)[|front| + k..] == a[k..] && (front + b)[|front| + k..] == b[k..];
  }

  lemma SpellingHasNoDotDots(names: seq<string>, directories: seq<string>, k: nat)
    requires Spells(names, directories) && IsClean(directories) && k <= |names|
    ensures ".." !in names[k..]
  {
    forall i | 0 <= i < |names|
      ensures names[i] != ".."
    {
      if i < |directories| {
        assert directories[i] in directories;
      }
    }
  }

  // ---------------------------------------------------------------------------------------
  // The three ways two walks can differ
  // ---------------------------------------------------------------------------------------

  lemma SpelledName(names: seq<string>, directories: seq<string>, i: nat)
    requires Spells(names, directories) && IsClean(directories) && i < |names|
    ensures i < |directories| <==> names[i] !in ["", ".", ".."]
    ensures i < |directories| ==> names[i] == directories[i]
  {
    if i < |directories| {
      assert directories[i] in directories;
    }
  }

  /** From a level on, what has to be climbed is what is left of the base. */
  lemma ClimbOfRest(b: seq<string>, base: seq<string>, k: nat)
    requires Spells(b, base) && IsClean(base) && k <= |b|
    ensures Climb(b[k..]) == if k <= |base| then |base| - k else 0
  {
    assert Climb([]) == 0 && Climb([""]) == 0 && Climb(["."]) == 0;
    hide Climb;
    if k < |base| {
      assert IsClean(base[k..]) by {
        assert forall name | name in base[k..] :: name in base;
      }
      assert b == base + [""] ==> b[k..] == base[k..] + [""];
      ClimbOfSpelling(b[k..], base[k..]);
    } else {
      assert b[k..] == if k == |b| then [] else [b[k]];
      if k < |b| {
        SpelledName(b, base, k);
      }
    }
  }

  /** The shared part of two spellings covers the base and leaves a directory exactly when the base is a
      proper prefix. */
  lemma SharedCoversBase(c: seq<string>, b: seq<string>, candidate: seq<string>, base: seq<string>)
    requires Spells(c, candidate) && Spells(b, base) && IsClean(candidate) && IsClean(base)
    ensures var k := SharedPrefix(c, b);
            IsProperPrefix(base, candidate) <==> k >= |base| && k < |candidate|
    ensures IsProperPrefix(base, candidate) ==> SharedPrefix(c, b) == |base|
  {
    var k := SharedPrefix(c, b);
    hide SharedPrefix;
    assert forall i | 0 <= i < k :: c[i] == c[..k][i] == b[..k][i] == b[i];
    if IsProperPrefix(base, candidate) {
      forall i | 0 <= i < |base|
        ensures b[i] == c[i]
      {
        assert base[i] == candidate[..|base|][i];
        SpelledName(b, base, i);
        SpelledName(c, candidate, i);
      }
      SpelledName(c, candidate, |base|);
      if |base| < |b| {
        SpelledName(b, base, |base|);
      }
    }
    if k >= |base| && k < |candidate| {
      forall i | 0 <= i < |base|
        ensures base[i] == candidate[i]
      {
        SpelledName(b, base, i);
        SpelledName(c, candidate, i);
      }
    }
  }

  /** Equal climbs: inside exactly when the directories are a proper prefix. */
  lemma SameLevel(c: seq<string>, b: seq<string>, candidate: seq<string>, base: seq<string>)
    requires Spells(c, candidate) && Spells(b, base) && IsClean(candidate) && IsClean(base)
    ensures PointsInside(RelativeNames(c, b)) <==> IsProperPrefix(base, candidate)
  {
    var k := SharedPrefix(c, b);
    ClimbOfRest(b, base, k);
    SharedCoversBase(c, b, candidate, base);
    SpellingHasNoDotDots(c, candidate, k);
    if k < |c| {
      SpelledName(c, candidate, k);
    }
    hide SharedPrefix, Climb, DotDots, IsProperPrefix, IsClean;
    var climb, rest := Climb(b[k..]), c[k..];
    if climb > 0 {
      assert (DotDots(climb) + rest)[0] == "..";
    } else {
      assert DotDots(0) + rest == rest;
      assert k >= |candidate| ==> rest in [[], [""], ["."]];
    }
  }

  /** A candidate that climbs further is outside. */
  lemma ClimbsFurther(n: nat, c: seq<string>, b: seq<string>, base: seq<string>)
    requires n > 0 && Spells(b, base) && IsClean(base)
    ensures !PointsInside(RelativeNames(DotDots(n) + c, b))
  {
    var names := DotDots(n) + c;
    var k := SharedPrefix(names, b);
    if k > 0 {
      assert names[..k][0] == b[..k][0] == "..";
      SpelledName(b, base, 0);
    }
    assert names[k..][0] == "..";
    hide SharedPrefix, Climb;
    var climb := Climb(b[k..]);
    if climb >= 0 {
      assert (DotDots(climb) + names[k..])[climb] == "..";
    }
  }

  /** A candidate that climbs less is taken to be inside exactly when the base goes down as many
      directories as it climbed further. */
  lemma ClimbsLess(n: nat, c: seq<string>, b: seq<string>, candidate: seq<string>, base: seq<string>)
    requires n > 0 && Spells(c, candidate) && IsClean(candidate) && Spells(b, base) && IsClean(base)
    ensures PointsInside(RelativeNames(c, DotDots(n) + b)) <==> |base| == n && candidate != []
  {
    var names := DotDots(n) + b;
    var k := SharedPrefix(c, names);
    if k > 0 {
      assert c[..k][0] == names[..k][0] == "..";
      SpelledName(c, candidate, 0);
    }
    assert names[..n] == DotDots(n) && names[n..] == b;
    ClimbOfWalk(names, Walk(n, base));
    SpellingHasNoDotDots(c, candidate, 0);
    if c != [] {
      SpelledName(c, candidate, 0);
    }
    hide SharedPrefix, Climb, DotDots, IsClean;
    assert c[0..] == c && names[0..] == names;
    var climb := Climb(names);
    if climb > 0 {
      assert (DotDots(climb) + c)[0] == "..";
    } else if climb == 0 {
      assert DotDots(0) + c == c;
    }
  }

  // ---------------------------------------------------------------------------------------
  // What containment means
  // ---------------------------------------------------------------------------------------

  /** The candidate's walk climbs as far as the base's and goes down beyond it. */
  predicate LiesBelow(base: Path, candidate: Path) {
    var outer, inner := WalkOfPath(base), WalkOfPath(candidate);
    && base.rootName == candidate.rootName && base.rootDirectory == candidate.rootDirectory
    && outer.ups == inner.ups && IsProperPrefix(outer.directories, inner.directories)
  }

  /** The candidates that are accepted all the same. Without a root directory on either side: the base climbs
      further, and goes down as many directories as it climbed further, whatever their names. With one on the
      candidate alone, and no root name: the base goes down at least as far as it climbs. */
  predicate IsMisjudged(base: Path, candidate: Path) {
    var outer, inner := WalkOfPath(base), WalkOfPath(candidate);
    && base.rootName == candidate.rootName && !base.rootDirectory
    && if candidate.rootDirectory then base.rootName == "" && |outer.directories| >= outer.ups
       else
         && outer.ups > inner.ups && |outer.directories| == outer.ups - inner.ups
         && inner.directories != []
  }

  /** Where the names lead from the directories `start` below a root. */
  function From(start: seq<string>, names: seq<string>): seq<string> {
    WalkOf(start + names, true).directories
  }

  function Descend(start: seq<string>, walk: Walk): seq<string> {
    (if |start| >= walk.ups then start[..|start| - walk.ups] else []) + walk.directories
  }

  lemma {:induction false} CleanLeadsToItself(start: seq<string>)
    requires IsClean(start)
    ensures WalkOf(start, true).directories == start
  {
    if start != [] {
      assert start[|start| - 1] in start;
      CleanLeadsToItself(start[..|start| - 1]);
    }
  }

  /** A walk without a root says where its names lead from anywhere. */
  lemma {:induction false} WalkLeads(start: seq<string>, names: seq<string>)
    requires IsClean(start)
    ensures From(start, names) == Descend(start, WalkOf(names, false))
  {
    if names == [] {
      assert start + names == start;
      CleanLeadsToItself(start);
    } else {
      var front := names[..|names| - 1];
      assert (start + names)[..|start + names| - 1] == start + front;
      WalkLeads(start, front);
      DescendStep(start, WalkOf(front, false), names[|names| - 1]);
    }
  }

  /** One more name, from the start and on the walk. */
  lemma DescendStep(start: seq<string>, at: Walk, name: string)
    ensures var down, directories := Descend(start, at), at.directories;
            && Descend(start, at.(directories := directories + [name])) == down + [name]
            && (directories != [] ==>
                  Descend(start, at.(directories := directories[..|directories| - 1])) == down[..|down| - 1])
            && (directories == [] ==>
                  Descend(start, at.(ups := at.ups + 1)) == if down == [] then [] else down[..|down| - 1])
  {
  }

  /** Between relative paths, lying below means lying below from every directory. */
  lemma BelowFromEveryStart(base: Path, candidate: Path, start: seq<string>)
    requires LiesBelow(base, candidate) && !base.rootDirectory && IsClean(start)
    ensures IsProperPrefix(From(start, base.names), From(start, candidate.names))
  {
    WalkLeads(start, base.names);
    WalkLeads(start, candidate.names);
    hide WalkOf, From;
    var outer, inner := WalkOfPath(base), WalkOfPath(candidate);
    assert Descend(start, inner)[..|Descend(start, outer)|] == Descend(start, outer);
  }

  /** A misjudged relative candidate is outside from some directory. */
  lemma MisjudgedEscapes(base: Path, candidate: Path) returns (start: seq<string>)
    requires IsMisjudged(base, candidate) && !candidate.rootDirectory
    ensures IsClean(start) && !IsProperPrefix(From(start, base.names), From(start, candidate.names))
  {
    var outer, inner := WalkOfPath(base), WalkOfPath(candidate);
    var name := if outer.directories[0] == "x" then "y" else "x";
    start := seq(outer.ups, _ => name);
    WalkLeads(start, base.names);
    WalkLeads(start, candidate.names);
    hide WalkOf, From;
    assert Descend(start, outer) == outer.directories;
    assert Descend(start, inner)[0] == name;
  }

  lemma DrivesAreDirectories(path: Path)
    ensures forall name | HasDrivePrefix(name) ::
              name in Normal(path).names <==> name in WalkOfPath(path).directories
  {
    var walk, names := WalkOfPath(path), Normal(path).names;
    NormalFollowsWalk(path);
    hide Normal, WalkOfPath, WalkOf;
    assert names == DotDots(walk.ups) + names[walk.ups..];
  }

  lemma DecideNames(base: Path, candidate: Path)
    requires base.rootDirectory == candidate.rootDirectory && base.rootName == candidate.rootName
    ensures PointsInside(RelativeNames(Normal(candidate).names, Normal(base).names))
            <==> LiesBelow(base, candidate) || IsMisjudged(base, candidate)
  {
    var outer, inner, b, c := WalkOfPath(base), WalkOfPath(candidate), Normal(base).names, Normal(candidate).names;
    NormalFollowsWalk(base);
    NormalFollowsWalk(candidate);
    hide Normal, WalkOf, Spells, RelativeNames, PointsInside, IsProperPrefix, IsClean, DotDots;
    var n := if outer.ups <= inner.ups then outer.ups else inner.ups;
    SplitDotDots(b, n, outer.ups);
    SplitDotDots(c, n, inner.ups);
    RelativeBehind(DotDots(n), c[n..], b[n..]);
    if outer.ups == inner.ups {
      SameLevel(c[n..], b[n..], inner.directories, outer.directories);
    } else if outer.ups < inner.ups {
      ClimbsFurther(inner.ups - n, c[inner.ups..], b[n..], outer.directories);
    } else {
      ClimbsLess(outer.ups - n, c[n..], b[outer.ups..], inner.directories, outer.directories);
    }
  }

  lemma SplitDotDots(names: seq<string>, n: nat, ups: nat)
    requires n <= ups <= |names| && names[..ups] == DotDots(ups)
    ensures names == DotDots(n) + names[n..] && names[n..] == DotDots(ups - n) + names[ups..]
  {
    assert forall i | 0 <= i < ups :: names[i] == names[..ups][i] == "..";
  }

  /** Both paths are non-empty, no directory of either reads as a drive, and the candidate lies below the base
      or belongs to the misjudged families. */
  predicate Passes(base: Path, candidate: Path) {
    && !base.IsEmpty() && !candidate.IsEmpty()
    && !HasDrive(WalkOfPath(candidate).directories + WalkOfPath(base).directories)
    && (LiesBelow(base, candidate) || IsMisjudged(base, candidate))
  }

  /** What containment comes to, for all paths. */
  lemma DescendantIsBelow(base: Path, candidate: Path)
    ensures IsStrictDescendant(base, candidate) <==> Passes(base, candidate)
  {
    NormalFollowsWalk(base);
    NormalFollowsWalk(candidate);
    DrivesAreDirectories(base);
    DrivesAreDirectories(candidate);
    ClimbOfWalk(Normal(base).names, WalkOfPath(base));
    if base.rootName == candidate.rootName && base.rootDirectory == candidate.rootDirectory {
      DecideNames(base, candidate);
    }
    if candidate.rootDirectory {
      RootedHasNoDotDots(candidate);
    }
    hide Normal, WalkOf, Spells, RelativeNames, Climb;
  }

  lemma WalkStep(front: seq<string>, name: string, rooted: bool)
    requires name !in ["", "."]
    ensures WalkOf([], rooted) == Walk(0, [])
    ensures var at := WalkOf(front, rooted);
            WalkOf(front + [name], rooted)
            == if name != ".." then at.(directories := at.directories + [name])
               else if at.directories != [] then at.(directories := at.directories[..|at.directories| - 1])
               else if rooted then at
               else at.(ups := at.ups + 1)
  {
    assert (front + [name])[..|front|] == front;
  }

  lemma WitnessWalks()
    ensures WalkOf(["..", "..", "a"], false) == Walk(2, ["a"]) && WalkOf(["..", "b"], false) == Walk(1, ["b"])
    ensures WalkOf(["a"], false) == Walk(0, ["a"]) && WalkOf(["b"], true) == Walk(0, ["b"])
  {
    hide WalkOf;
    WalkStep([], "..", false);
    WalkStep([".."], "..", false);
    WalkStep(["..", ".."], "a", false);
    WalkStep([".."], "b", false);
    WalkStep([], "a", false);
    WalkStep([], "b", true);
    assert [] + [".."] == [".."] && [".."] + [".."] == ["..", ".."] && ["..", ".."] + ["a"] == ["..", "..", "a"];
    assert [".."] + ["b"] == ["..", "b"] && [] + ["a"] == ["a"] && [] + ["b"] == ["b"];
  }

  lemma NoDriveInPair(x: string, y: string)
    requires |x| < 2 && |y| < 2
    ensures !HasDrive([x] + [y])
  {
  }

  /** Both kinds of misjudged candidates exist: `..\b` passes for inside of `..\..\a`, and `\b` of `a`. */
  lemma MisjudgedCandidates()
    ensures var base, candidate := Path("", false, ["..", "..", "a"]), Path("", false, ["..", "b"]);
            IsMisjudged(base, candidate) && IsStrictDescendant(base, candidate)
    ensures var base, candidate := Path("", false, ["a"]), Path("", true, ["b"]);
            IsMisjudged(base, candidate) && IsStrictDescendant(base, candidate)
  {
    WitnessWalks();
    NoDriveInPair("b", "a");
    hide WalkOf, IsStrictDescendant, HasDrive;
    DescendantIsBelow(Path("", false, ["..", "..", "a"]), Path("", false, ["..", "b"]));
    DescendantIsBelow(Path("", false, ["a"]), Path("", true, ["b"]));
  }

  lemma RootedHasNoDotDots(path: Path)
    requires path.rootDirectory
    ensures ".." !in Normal(path).names
  {
    NormalFollowsWalk(path);
    hide Normal, WalkOf, Spells, IsClean;
    SpellingHasNoDotDots(Normal(path).names, WalkOfPath(path).directories, 0);
  }

  // ---------------------------------------------------------------------------------------
  // The verdict
  // ---------------------------------------------------------------------------------------

  datatype Roots = Roots(visible: Path, physical: Path, physicalVerified: bool)

  datatype Verdict = AcceptedPhysical | AcceptedVisible | RejectedNoTrustedRoot | RejectedEscaped

  predicate IsAccepted(verdict: Verdict) {
    verdict == AcceptedPhysical || verdict == AcceptedVisible
  }

  function Classify(roots: Roots, runtime: Path): Verdict {
    if roots.physicalVerified && !roots.physical.IsEmpty() then
      if IsStrictDescendant(roots.physical, runtime) then AcceptedPhysical else RejectedEscaped
    else if !roots.visible.IsEmpty() then
      if IsStrictDescendant(roots.visible, runtime) then AcceptedVisible else RejectedEscaped
    else RejectedNoTrustedRoot
  }

  /** A verified physical root decides alone, the visible root only without one, and without either nothing is
      trusted. The root that decides accepts exactly what passes for below it; for an absolute runtime that is
      what does lie below it. */
  lemma VerdictIsExact(roots: Roots, runtime: Path)
    ensures var verdict, physical := Classify(roots, runtime), roots.physicalVerified && !roots.physical.IsEmpty();
            && (verdict == AcceptedPhysical <==> physical && Passes(roots.physical, runtime))
            && (verdict == AcceptedVisible <==> !physical && Passes(roots.visible, runtime))
            && (verdict == RejectedNoTrustedRoot <==> !physical && roots.visible.IsEmpty())
            && (runtime.IsAbsolute() ==>
                  (IsAccepted(verdict) <==>
                     var root := if physical then roots.physical else roots.visible;
                     LiesBelow(root, runtime) && !HasDrive(WalkOfPath(runtime).directories)))
  {
    DescendantIsBelow(roots.physical, runtime);
    DescendantIsBelow(roots.visible, runtime);
    hide IsStrictDescendant, WalkOf, HasDrive;
    if runtime.IsAbsolute() {
      DrivesOfRoot(roots.physical, runtime);
      DrivesOfRoot(roots.visible, runtime);
    }
  }

  /** Below an absolute path, its directories are the runtime's. */
  lemma DrivesOfRoot(root: Path, runtime: Path)
    requires runtime.IsAbsolute()
    ensures Passes(root, runtime) <==> LiesBelow(root, runtime) && !HasDrive(WalkOfPath(runtime).directories)
  {
    hide WalkOf;
    var inner, outer := WalkOfPath(runtime).directories, WalkOfPath(root).directories;
    if LiesBelow(root, runtime) {
      assert forall i | 0 <= i < |outer| :: outer[i] == inner[..|outer|][i] == inner[i];
      assert forall name | name in inner + outer :: name in inner;
      assert forall name | name in inner :: name in inner + outer;
    }
  }

  /** Two candidates that walk to the same directory get the same verdict. */
  lemma VerdictDependsOnTheWalk(roots: Roots, one: Path, other: Path)
    requires one.rootName == other.rootName && one.rootDirectory == other.rootDirectory
    requires WalkOfPath(one) == WalkOfPath(other) && !one.IsEmpty() && !other.IsEmpty()
    ensures Classify(roots, one) == Classify(roots, other)
  {
    DescendantIsBelow(roots.physical, one);
    DescendantIsBelow(roots.physical, other);
    DescendantIsBelow(roots.visible, one);
    DescendantIsBelow(roots.visible, other);
    hide IsStrictDescendant, WalkOf;
  }
}
