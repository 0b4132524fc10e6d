/** What a path means: a drive digit, then components between slashes. */
module Paths {
  import opened Bits
  import opened CStrings
  import opened Status

  const SLASH: u8 := 0x2f
  const COLON: u8 := 0x3a

  type Name = seq<u8>

  /** The characters before the first slash. */
  function FirstPart(t: seq<u8>): (p: Name)
    ensures |p| <= |t| && p == t[..|p|] && SLASH !in p
    ensures |p| < |t| ==> t[|p|] == SLASH
  {
    if |t| == 0 || t[0] == SLASH then [] else [t[0]] + FirstPart(t[1..])
  }

  lemma FirstPartIs(t: seq<u8>, n: nat)
    requires n <= |t| && (forall i | 0 <= i < n :: t[i] != SLASH) && (n < |t| ==> t[n] == SLASH)
    ensures FirstPart(t) == t[..n]
  {
  }

  /** What is left behind the first component and its slash. */
  function Rest(t: seq<u8>): (r: seq<u8>)
    ensures |t| > 0 ==> |r| < |t|
    ensures |r| <= |t|
  {
    var n := |FirstPart(t)|;
    if n < |t| then t[n + 1..] else []
  }

  /** The components the parser takes: it stops at the first empty one. */
  function Parts(t: seq<u8>): (parts: seq<Name>)
    decreases |t|
  {
    if FirstPart(t) == [] then [] else [FirstPart(t)] + Parts(Rest(t))
  }

  // ----- A reference: split at every slash, then cut

  /** All components, empty ones included. */
  function Split(t: seq<u8>): (parts: seq<Name>)
    ensures |parts| >= 1
    decreases |t|
  {
    if |FirstPart(t)| == |t| then [t] else [FirstPart(t)] + Split(Rest(t))
  }

  /** What comes before the first empty component. */
  function UpToEmpty(parts: seq<Name>): (r: seq<Name>)
    ensures |r| <= |parts| && r == parts[..|r|] && forall i | 0 <= i < |r| :: r[i] != []
    ensures |r| < |parts| ==> parts[|r|] == []
  {
    if |parts| == 0 || parts[0] == [] then [] else [parts[0]] + UpToEmpty(parts[1..])
  }

  /** The parser's components are the slash-split of the path up to its first
      empty component. */
  lemma {:induction false} PartsAreSplit(t: seq<u8>)
    ensures Parts(t) == UpToEmpty(Split(t))
    decreases |t|
  {
    if |FirstPart(t)| < |t| && FirstPart(t) != [] {
      PartsAreSplit(Rest(t));
      assert Split(t)[1..] == Split(Rest(t));
    } else if FirstPart(t) != [] {
      assert FirstPart(t) == t && Rest(t) == [];
      assert FirstPart([]) == [];
    }
  }

  /** Components with a '/' between each two. */
  function Rejoin(parts: seq<Name>): seq<u8>
    requires |parts| > 0
  {
    if |parts| == 1 then parts[0] else parts[0] + ['/' as int] + Rejoin(parts[1..])
  }

  /** The split is the one into components without '/' that gives the text back
      when they are joined again. */
  lemma {:induction false} SplitIff(t: seq<u8>, parts: seq<Name>)
    requires |parts| > 0
    ensures parts == Split(t) <==> Rejoin(parts) == t && forall i | 0 <= i < |parts| :: '/' as int !in parts[i]
    decreases |t|, |parts|
  {
    SplitRejoins(t);
    forall i | 0 <= i < |Split(t)|
      ensures '/' as int !in Split(t)[i]
    {
      SplitHasNoSlash(t, i);
    }
    if Rejoin(parts) == t && forall i | 0 <= i < |parts| :: '/' as int !in parts[i] {
      RejoinSplits(parts);
    }
  }

  lemma {:induction false} SplitRejoins(t: seq<u8>)
    ensures Rejoin(Split(t)) == t
    decreases |t|
  {
    var p, rest := FirstPart(t), Rest(t);
    if |p| < |t| {
      SplitRejoins(rest);
      RejoinCons(p, Split(rest));
      CutAtSlash(t);
    }
  }

  lemma CutAtSlash(t: seq<u8>)
    requires |FirstPart(t)| < |t|
    ensures t == FirstPart(t) + ['/' as int] + Rest(t)
  {
  }

  lemma {:induction false} SplitHasNoSlash(t: seq<u8>, i: nat)
    requires i < |Split(t)|
    ensures '/' as int !in Split(t)[i]
    decreases |t|
  {
    if |FirstPart(t)| < |t| && i > 0 {
      SplitHasNoSlash(Rest(t), i - 1);
    }
  }

  lemma RejoinCons(p: Name, parts: seq<Name>)
    requires |parts| > 0
    ensures Rejoin([p] + parts) == p + ['/' as int] + Rejoin(parts)
  {
    assert ([p] + parts)[1..] == parts;
  }

  lemma {:induction false} RejoinSplits(parts: seq<Name>)
    requires |parts| > 0 && forall i | 0 <= i < |parts| :: '/' as int !in parts[i]
    ensures Split(Rejoin(parts)) == parts
  {
    var p, others := parts[0], parts[1..];
    if others == [] {
      FirstPartIs(p, |p|);
      assert Split(p) == parts;
    } else {
      assert forall i | 0 <= i < |others| :: others[i] == parts[i + 1];
      RejoinSplits(others);
      SplitCons(p, Rejoin(others));
      assert [p] + others == parts;
    }
  }

  lemma SplitCons(p: Name, rest: seq<u8>)
    requires '/' as int !in p
    ensures Split(p + ['/' as int] + rest) == [p] + Split(rest)
  {
    var t := p + ['/' as int] + rest;
    assert forall i | 0 <= i < |p| :: t[i] == p[i];
    FirstPartIs(t, |p|);
    assert t[..|p|] == p && t[|p| + 1..] == rest;
  }

  predicate ValidName(p: Name) {
    p != [] && SLASH !in p && 0 !in p
  }

  lemma {:induction false} PartsAreValid(t: seq<u8>)
    requires 0 !in t
    ensures forall p | p in Parts(t) :: ValidName(p) && |p| <= |t|
    decreases |t|
  {
    if FirstPart(t) != [] {
      PartsAreValid(Rest(t));
    }
  }

  // ----- Printing

  function Join(parts: seq<Name>): seq<u8> {
    if |parts| == 0 then []
    else if |parts| == 1 then parts[0]
    else parts[0] + [SLASH] + Join(parts[1..])
  }

  lemma {:induction false} PartsOfJoin(parts: seq<Name>)
    requires forall p | p in parts :: ValidName(p)
    ensures Parts(Join(parts)) == parts && 0 !in Join(parts)
  {
    if |parts| == 0 {
      assert FirstPart([]) == [];
    } else {
      var t := Join(parts);
      PartsOfJoin(parts[1..]);
      assert ValidName(parts[0]) && t[..|parts[0]|] == parts[0];
      assert forall i | 0 <= i < |parts[0]| :: t[i] == parts[0][i];
      FirstPartIs(t, |parts[0]|);
      assert FirstPart(t) == parts[0];
      if |parts| == 1 {
        assert Rest(t) == [];
        assert FirstPart([]) == [];
      } else {
        assert Rest(t) == Join(parts[1..]);
      }
    }
  }

  datatype Path = Path(drive: nat, parts: seq<Name>)

  predicate IsDigit(c: u8) {
    48 <= c <= 57
  }

  /** `pathparser_path_valid_format` together with the length limit. */
  predicate ValidFormat(text: seq<u8>) {
    3 <= |text| <= MAX_PATH && IsDigit(text[0]) && text[1] == COLON && text[2] == SLASH
  }

  function ParsePath(text: seq<u8>): Option<Path> {
    if !ValidFormat(text) then None else Some(Path(text[0] - 48, Parts(text[3..])))
  }

  function Render(p: Path): seq<u8>
    requires p.drive < 10
  {
    [48 + p.drive, COLON, SLASH] + Join(p.parts)
  }

  /** A path is a digit, a colon, a slash and a tail, at most 108 characters in
      all; the digit is the drive. */
  lemma ParseSomeIff(text: seq<u8>)
    ensures ParsePath(text).Some? <==>
              && 3 <= |text| <= 108 && '0' as int <= text[0] <= '9' as int
              && text[1] == ':' as int && text[2] == '/' as int
    ensures ParsePath(text).Some? ==>
              ParsePath(text).value.drive == text[0] - '0' as int
              && ParsePath(text).value.parts == UpToEmpty(Split(text[3..]))
  {
    if ParsePath(text).Some? {
      PartsAreSplit(text[3..]);
    }
  }

  /** Parsing undoes printing. */
  lemma ParseRender(p: Path)
    requires p.drive < 10 && (forall n | n in p.parts :: ValidName(n)) && |Render(p)| <= MAX_PATH
    ensures ParsePath(Render(p)) == Some(p)
  {
    PartsOfJoin(p.parts);
    assert Render(p)[3..] == Join(p.parts);
  }

  /** Printing what was parsed gives a path with the same meaning, no longer
      than the original. */
  lemma RenderParse(text: seq<u8>)
    requires ValidFormat(text) && 0 !in text
    ensures var p := ParsePath(text).value;
            p.drive < 10 && |Render(p)| <= |text| && ParsePath(Render(p)) == Some(p)
  {
    var p := ParsePath(text).value;
    PartsAreValid(text[3..]);
    JoinShorter(text[3..]);
    ParseRender(p);
  }

  lemma {:induction false} JoinShorter(t: seq<u8>)
    ensures |Join(Parts(t))| <= |t|
    decreases |t|
  {
    if FirstPart(t) != [] {
      JoinShorter(Rest(t));
      var parts := Parts(t);
      assert parts[1..] == Parts(Rest(t));
      if |FirstPart(t)| == |t| {
        assert FirstPart([]) == [];
      }
    }
  }

  /** A path with a drive and two components. */
  lemma ProgramPath()
    ensures ParsePath(Ascii("0:/bin/a.bin")) == Some(Path(0, [Ascii("bin"), Ascii("a.bin")]))
  {
    var p := Path(0, [Ascii("bin"), Ascii("a.bin")]);
    assert p.parts[1..] == [Ascii("a.bin")];
    assert Render(p) == Ascii("0:/bin/a.bin");
    ParseRender(p);
  }
}
