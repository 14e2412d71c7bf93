/** The ASCII text helpers of the configuration code. */
module AsciiText {
  import opened Common

  /** `std::isspace` in the C locale. */
  predicate IsSpace(c: char) {
    c == ' ' || '\t' <= c <= '\r'
  }

  /** `std::tolower` in the C locale. */
  function Lower(c: char): char {
    if 'A' <= c <= 'Z' then (c as int + 32) as char else c
  }

  predicate IEquals(left: string, right: string) {
    |left| == |right| && forall k | 0 <= k < |left| :: Lower(left[k]) == Lower(right[k])
  }

  /** Two characters are alike when they are the same, or the two cases of one letter. */
  lemma LikeUpToCase(c: char, d: char)
    ensures Lower(c) == Lower(d)
            <==> || c == d
                 || ('A' <= c <= 'Z' && 'a' <= d <= 'z' && c as int - 'A' as int == d as int - 'a' as int)
                 || ('A' <= d <= 'Z' && 'a' <= c <= 'z' && d as int - 'A' as int == c as int - 'a' as int)
  {
  }

  function TrimFront(s: string): (r: string)
    ensures |r| <= |s| && r == s[|s| - |r|..]
    ensures r != "" ==> !IsSpace(r[0])
    ensures forall k | 0 <= k < |s| - |r| :: IsSpace(s[k])
  {
    if s != "" && IsSpace(s[0]) then TrimFront(s[1..]) else s
  }

  function TrimBack(s: string): (r: string)
    ensures |r| <= |s| && r == s[..|r|]
    ensures r != "" ==> !IsSpace(r[|r| - 1])
    ensures forall k | |r| <= k < |s| :: IsSpace(s[k])
  {
    if s != "" && IsSpace(s[|s| - 1]) then TrimBack(s[..|s| - 1]) else s
  }

  function Trim(s: string): string {
    TrimBack(TrimFront(s))
  }

  lemma TrimFrontStep(s: string)
    ensures TrimFront(s) == if s != "" && IsSpace(s[0]) then TrimFront(s[1..]) else s
  {
  }

  lemma TrimBackStep(s: string)
    ensures TrimBack(s) == if s != "" && IsSpace(s[|s| - 1]) then TrimBack(s[..|s| - 1]) else s
  {
  }

  method TrimAscii(text: string) returns (value: string)
    ensures value == Trim(text)
  {
    assert Trim(text) == TrimBack(TrimFront(text));
    hide *;
    value := text;
    while value != "" && IsSpace(value[0])
      invariant TrimFront(value) == TrimFront(text)
      decreases |value|
    {
      TrimFrontStep(value);
      value := value[1..];
    }
    TrimFrontStep(value);
    while value != "" && IsSpace(value[|value| - 1])
      invariant TrimBack(value) == Trim(text)
      decreases |value|
    {
      TrimBackStep(value);
      value := value[..|value| - 1];
    }
    TrimBackStep(value);
  }

  lemma {:induction false} FrontEndsAt(s: string, i: nat)
    requires i <= |s| && (forall k | 0 <= k < i :: IsSpace(s[k])) && (i < |s| ==> !IsSpace(s[i]))
    ensures TrimFront(s) == s[i..]
    decreases i
  {
    hide *;
    TrimFrontStep(s);
    if i > 0 {
      FrontEndsAt(s[1..], i - 1);
      assert s[1..][i - 1..] == s[i..];
    }
  }

  lemma {:induction false} BackEndsAt(s: string, j: nat)
    requires j <= |s| && (forall k | j <= k < |s| :: IsSpace(s[k])) && (j > 0 ==> !IsSpace(s[j - 1]))
    ensures TrimBack(s) == s[..j]
    decreases |s|
  {
    hide *;
    TrimBackStep(s);
    if j < |s| {
      BackEndsAt(s[..|s| - 1], j);
      assert s[..|s| - 1][..j] == s[..j];
    }
  }

  lemma FrontIndex(s: string) returns (i: nat)
    ensures i <= |s| && TrimFront(s) == s[i..]
    ensures (forall k | 0 <= k < i :: IsSpace(s[k])) && (i < |s| ==> !IsSpace(s[i]))
  {
    i := |s| - |TrimFront(s)|;
  }

  lemma BackIndex(s: string) returns (j: nat)
    ensures j <= |s| && TrimBack(s) == s[..j]
    ensures (forall k | j <= k < |s| :: IsSpace(s[k])) && (j > 0 ==> !IsSpace(s[j - 1]))
  {
    j := |TrimBack(s)|;
  }

  lemma TrimMeans(s: string)
    ensures Trim(s) == TrimBack(TrimFront(s))
  {
  }

  /** Both ends can be trimmed in either order, and trimming again changes nothing. */
  lemma TrimsCommute(s: string)
    ensures TrimFront(TrimBack(s)) == Trim(s)
  {
    hide *;
    TrimMeans(s);
    var i := FrontIndex(s);
    if i == |s| {
      BackEndsAt(s, 0);
      FrontEndsAt("", 0);
      BackEndsAt("", 0);
    } else {
      var j := BackIndex(s);
      TrimBothEnds(s, i, j);
    }
  }

  lemma TrimBothEnds(s: string, i: nat, j: nat)
    requires i < |s| && j <= |s| && !IsSpace(s[i])
    requires (forall k | 0 <= k < i :: IsSpace(s[k])) && (forall k | j <= k < |s| :: IsSpace(s[k]))
    requires j > 0 ==> !IsSpace(s[j - 1])
    ensures TrimBack(s[i..]) == TrimFront(s[..j])
  {
    hide *;
    assert i < j;
    BackEndsAt(s[i..], j - i);
    FrontEndsAt(s[..j], i);
    assert s[i..][..j - i] == s[..j][i..];
  }

  lemma TrimIsStable(s: string)
    ensures Trim(Trim(s)) == Trim(s) == Trim(TrimBack(s))
  {
    TrimsCommute(s);
    var t := TrimFront(s);
    TrimsCommute(t);
  }

  /** Trimming removes white space only, all of it at both ends. */
  lemma TrimIsExact(s: string)
    ensures exists i, j :: 0 <= i <= j <= |s| && IsTrimmedTo(s, i, j)
  {
    hide *;
    TrimMeans(s);
    var i := FrontIndex(s);
    var front := TrimFront(s);
    var j := BackIndex(front);
    assert front[..j] == s[i..i + j];
    TrimmedTo(s, i, i + j);
  }

  /** `s[i..j]` is the trimmed text: only white space around it, and none at its ends. */
  ghost predicate IsTrimmedTo(s: string, i: nat, j: nat)
    requires i <= j <= |s|
  {
    && Trim(s) == s[i..j]
    && (forall k | 0 <= k < i || j <= k < |s| :: IsSpace(s[k]))
    && (i < j ==> !IsSpace(s[i]) && !IsSpace(s[j - 1]))
  }

  lemma TrimmedTo(s: string, i: nat, j: nat)
    requires i <= j <= |s| && Trim(s) == s[i..j]
    requires forall k | 0 <= k < i || j <= k < |s| :: IsSpace(s[k])
    requires i < j ==> !IsSpace(s[i]) && !IsSpace(s[j - 1])
    ensures IsTrimmedTo(s, i, j)
  {
  }

  /** The six white-space characters. */
  lemma SpacesAreSix(c: char)
    ensures IsSpace(c) <==> c in [' ', '\t', '\n', '\U{0B}', '\U{0C}', '\r']
  {
  }

  /** White space at the end does not matter, the carriage return of a line included. */
  lemma TrimIgnoresAppended(s: string, c: char)
    requires IsSpace(c)
    ensures Trim(s + [c]) == Trim(s)
  {
    TrimsCommute(s);
    TrimsCommute(s + [c]);
    TrimBackStep(s + [c]);
    assert (s + [c])[..|s|] == s;
  }

  /** Trimming the back stops at the last character of a prefix that does not end in a space. */
  lemma {:induction false} TrimBackAppend(prefix: string, s: string)
    requires prefix != "" && !IsSpace(prefix[|prefix| - 1])
    ensures TrimBack(prefix + s) == prefix + TrimBack(s)
    decreases |s|
  {
    var whole := prefix + s;
    if s == "" {
      assert whole == prefix;
    } else if IsSpace(s[|s| - 1]) {
      assert whole[..|whole| - 1] == prefix + s[..|s| - 1];
      TrimBackAppend(prefix, s[..|s| - 1]);
    }
  }

  /** The first place of `c` at or after `from`. */
  function IndexOf(s: string, c: char, from: nat): (index: Option<nat>)
    requires from <= |s|
    ensures index.Some? ==> from <= index.value < |s| && s[index.value] == c
    ensures index.Some? ==> forall k | from <= k < index.value :: s[k] != c
    ensures index == None ==> forall k | from <= k < |s| :: s[k] != c
    decreases |s| - from
  {
    if from == |s| then None
    else if s[from] == c then Some(from)
    else IndexOf(s, c, from + 1)
  }
}
