/** Which directory entries `searchRegion` treats as region files: the names
    matching `^r\.(-?[0-9]+)\.(-?[0-9]+)\.mca$`, kept in listing order. */
module RegionFiles {

  predicate IsDigit(c: char) { '0' <= c <= '9' }

  /** `[0-9]+` */
  predicate IsDigits(s: string) {
    |s| > 0 && forall i :: 0 <= i < |s| ==> IsDigit(s[i])
  }

  /** `-?[0-9]+` */
  predicate IsSignedInt(s: string) {
    IsDigits(s) || (|s| > 0 && s[0] == '-' && IsDigits(s[1..]))
  }

  /** The name of the region file with coordinate texts `x` and `z`. */
  function RegionFileName(x: string, z: string): string {
    "r." + x + "." + z + ".mca"
  }

  /** What the pattern means: the whole name is `r.<x>.<z>.mca` for two signed
      integers, with nothing before or after. */
  ghost predicate IsRegionFileName(name: string) {
    exists x, z :: IsSignedInt(x) && IsSignedInt(z) && name == RegionFileName(x, z)
  }

  /** The position of the first '.' in `s`, or |s| when there is none. */
  function DotIndex(s: string): (k: nat)
    ensures k <= |s|
    ensures forall i :: 0 <= i < k ==> s[i] != '.'
    ensures k < |s| ==> s[k] == '.'
  {
    if s == [] || s[0] == '.' then 0 else 1 + DotIndex(s[1..])
  }

  /** The matcher: strip `r.` and `.mca`, split what is left at its first dot
      and check both halves. */
  predicate MatchesRegionFileName(name: string): (b: bool)
    ensures b ==> 9 <= |name|
  {
    && 6 <= |name|
    && name[..2] == "r."
    && name[|name| - 4..] == ".mca"
    && var mid := name[2..|name| - 4];
       var k := DotIndex(mid);
       k < |mid| && IsSignedInt(mid[..k]) && IsSignedInt(mid[k + 1..])
  }

  lemma SignedIntHasNoDot(s: string)
    requires IsSignedInt(s)
    ensures forall i :: 0 <= i < |s| ==> s[i] != '.'
  {
    if !IsDigits(s) {
      forall i | 0 <= i < |s| ensures s[i] != '.' {
        if i > 0 { assert s[i] == s[1..][i - 1]; }
      }
    }
  }

  /** The matcher accepts exactly the names the pattern describes. */
  lemma MatchesIffRegionFileName(name: string)
    ensures MatchesRegionFileName(name) <==> IsRegionFileName(name)
  {
    if MatchesRegionFileName(name) {
      var mid := name[2..|name| - 4];
      var k := DotIndex(mid);
      var x, z := mid[..k], mid[k + 1..];
      assert mid == x + "." + z;
      assert name == name[..2] + mid + name[|name| - 4..];
      assert name == RegionFileName(x, z);
    }
    if IsRegionFileName(name) {
      var x, z :| IsSignedInt(x) && IsSignedInt(z) && name == RegionFileName(x, z);
      RegionFileNameMatches(x, z);
    }
  }

  /** Every name built from two signed integers is accepted, and splitting it
      recovers the two integers. */
  lemma RegionFileNameMatches(x: string, z: string)
    requires IsSignedInt(x) && IsSignedInt(z)
    ensures MatchesRegionFileName(RegionFileName(x, z))
    ensures var name := RegionFileName(x, z);
            var mid := name[2..|name| - 4];
            DotIndex(mid) == |x| && mid[..|x|] == x && mid[|x| + 1..] == z
  {
    var name := RegionFileName(x, z);
    assert name[..2] == "r.";
    assert name[|name| - 4..] == ".mca";
    var mid := name[2..|name| - 4];
    assert mid == x + "." + z;
    SignedIntHasNoDot(x);
    var k := DotIndex(mid);
    assert mid[|x|] == '.';
    assert forall i :: 0 <= i < |x| ==> mid[i] == x[i];
    assert k == |x|;
    assert mid[..k] == x;
    assert mid[k + 1..] == z;
  }

  /** The accepted entries of a directory listing, in listing order. */
  function Accepted(names: seq<string>): (r: seq<string>)
    ensures |r| <= |names|
  {
    if names == [] then []
    else
      var last := names[|names| - 1];
      Accepted(names[..|names| - 1]) + (if MatchesRegionFileName(last) then [last] else [])
  }

  /** The filter commutes with concatenation of listings: nothing is reordered
      across the boundary. */
  lemma {:induction false} AcceptedAppend(a: seq<string>, b: seq<string>)
    ensures Accepted(a + b) == Accepted(a) + Accepted(b)
    decreases |b|
  {
    if b == [] {
      assert a + b == a;
    } else {
      var last := b[|b| - 1];
      assert (a + b)[..|a + b| - 1] == a + b[..|b| - 1];
      AcceptedAppend(a, b[..|b| - 1]);
    }
  }

  /** An entry is in the region list exactly when it was listed and accepted. */
  lemma {:induction false} AcceptedMembers(names: seq<string>, s: string)
    ensures s in Accepted(names) <==> s in names && MatchesRegionFileName(s)
  {
    if names != [] {
      var init := names[..|names| - 1];
      AcceptedMembers(init, s);
      assert names == init + [names[|names| - 1]];
    }
  }

  /** Nothing is added or duplicated: each accepted name occurs as often as in
      the listing, and a rejected one does not occur. */
  lemma {:induction false} AcceptedCounts(names: seq<string>, s: string)
    ensures multiset(Accepted(names))[s] == if MatchesRegionFileName(s) then multiset(names)[s] else 0
  {
    if names != [] {
      var init := names[..|names| - 1];
      AcceptedCounts(init, s);
      assert names == init + [names[|names| - 1]];
    }
  }

  /** A listing of region files only is kept whole. */
  lemma {:induction false} AcceptedAllMatching(names: seq<string>)
    requires forall i :: 0 <= i < |names| ==> MatchesRegionFileName(names[i])
    ensures Accepted(names) == names
  {
    if names != [] {
      AcceptedAllMatching(names[..|names| - 1]);
    }
  }

  /** The loop in `searchRegion` that appends each matching entry to `regions`. */
  method FilterRegionFiles(entries: seq<string>) returns (regions: seq<string>)
    ensures regions == Accepted(entries)
  {
    regions := [];
    for k := 0 to |entries|
      invariant regions == Accepted(entries[..k])
    {
      assert entries[..k + 1][..k] == entries[..k];
      if MatchesRegionFileName(entries[k]) {
        regions := regions + [entries[k]];
      }
    }
    assert entries[..|entries|] == entries;
  }

  /** A name with a negative coordinate is accepted. */
  lemma AcceptsNegativeCoordinate()
    ensures MatchesRegionFileName("r.-3.12.mca")
  {
    assert IsSignedInt("-3") by { assert "-3"[1..] == "3"; }
    assert IsSignedInt("12");
    RegionFileNameMatches("-3", "12");
    assert RegionFileName("-3", "12") == "r.-3.12.mca";
  }

  /** Another extension, or anything after `.mca`, is rejected. */
  lemma RejectsOtherExtensions()
    ensures !MatchesRegionFileName("r.1.2.mcr")
    ensures !MatchesRegionFileName("r.1.2.mca.bak")
  {
    var a, b := "r.1.2.mcr", "r.1.2.mca.bak";
    assert a[|a| - 4..] == ".mcr";
    assert b[|b| - 4..] == ".bak";
  }

  /** An empty coordinate is rejected. */
  lemma RejectsEmptyCoordinate()
    ensures !MatchesRegionFileName("r..1.mca")
  {
    var name := "r..1.mca";
    var mid := name[2..|name| - 4];
    assert mid == ".1";
    assert DotIndex(mid) == 0;
  }

  /** A doubled minus sign is rejected. */
  lemma RejectsDoubleMinus()
    ensures !MatchesRegionFileName("r.--1.2.mca")
  {
    var name := "r.--1.2.mca";
    var mid := name[2..|name| - 4];
    assert mid == "--1.2";
    assert DotIndex(mid) == 3 by {
      assert mid[3] == '.';
    }
    var x := mid[..3];
    assert x == "--1";
    assert !IsDigit(x[0]) && !IsDigit(x[1..][0]);
  }
}
