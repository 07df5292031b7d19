/** The ref list of ggit-graph.c: `ggit_load_refs` splits the output of a
    ref listing into `HASH NAME` lines, and `ggit_match_refs_to_commits` finds
    the commit each ref hash points at. */
module Refs {
  import opened Text

  /** The ref-hash vector stores fixed 40-character values. */
  const HashWidth := 40

  /** A space at `j` copies the 40 characters from the start of its line;
      those characters must lie inside the text. */
  predicate WindowFits(refs: string, j: nat)
    requires j < |refs|
  {
    refs[j] == ' ' ==> StartAfter(refs, '\n', j) + HashWidth <= |refs|
  }

  predicate WindowsFit(refs: string) {
    forall j | 0 <= j < |refs| :: WindowFits(refs, j)
  }

  /** The two vectors `ggit_load_refs` fills. */
  datatype RefLists = RefLists(hashes: seq<string>, names: seq<string>)

  /** The vectors after the first `i` characters of `refs`: a space pushes
      the 40-character window that starts where the line starts, a newline
      pushes the text since the last space, and everything else (the '\0'
      included) is skipped. */
  function ScanRefs(refs: string, i: nat): RefLists
    requires i <= |refs| && WindowsFit(refs)
  {
    if i == 0 then RefLists([], [])
    else
      var r := ScanRefs(refs, i - 1);
      var j := i - 1;
      if refs[j] == ' ' then
        assert WindowFits(refs, j);
        var h := StartAfter(refs, '\n', j);
        r.(hashes := r.hashes + [refs[h..h + HashWidth]])
      else if refs[j] == '\n' then
        r.(names := r.names + [CStr(refs[StartAfter(refs, ' ', j)..j])])
      else r
  }

  /** A space: the name starts after it, and the line's hash window is pushed. */
  lemma ScanSpace(refs: string, i: nat)
    requires i < |refs| && WindowsFit(refs) && refs[i] == ' '
    ensures StartAfter(refs, '\n', i + 1) == StartAfter(refs, '\n', i) && StartAfter(refs, ' ', i + 1) == i + 1
    ensures var r := ScanRefs(refs, i);
            var h := StartAfter(refs, '\n', i);
            h + HashWidth <= |refs| && ScanRefs(refs, i + 1) == r.(hashes := r.hashes + [refs[h..h + HashWidth]])
  {
    assert WindowFits(refs, i);
  }

  /** A newline: the next line starts after it, and the name is pushed. */
  lemma ScanNewline(refs: string, i: nat)
    requires i < |refs| && WindowsFit(refs) && refs[i] == '\n'
    ensures StartAfter(refs, '\n', i + 1) == i + 1 && StartAfter(refs, ' ', i + 1) == StartAfter(refs, ' ', i)
    ensures var r := ScanRefs(refs, i);
            ScanRefs(refs, i + 1) == r.(names := r.names + [CStr(refs[StartAfter(refs, ' ', i)..i])])
  {
  }

  /** Any other character changes nothing. */
  lemma ScanOther(refs: string, i: nat)
    requires i < |refs| && WindowsFit(refs) && refs[i] != ' ' && refs[i] != '\n'
    ensures StartAfter(refs, '\n', i + 1) == StartAfter(refs, '\n', i) && StartAfter(refs, ' ', i + 1) == StartAfter(refs, ' ', i)
    ensures ScanRefs(refs, i + 1) == ScanRefs(refs, i)
  {
  }

  /** `ggit_load_refs`. */
  method LoadRefs(refs: string) returns (hashes: seq<string>, names: seq<string>)
    requires WindowsFit(refs)
    ensures RefLists(hashes, names) == ScanRefs(refs, |refs|)
  {
    var startHash := 0;
    var startName := 0;
    hashes, names := [], [];
    var i := 0;
    while i < |refs|
      invariant 0 <= i <= |refs|
      invariant startHash == StartAfter(refs, '\n', i) && startName == StartAfter(refs, ' ', i)
      invariant RefLists(hashes, names) == ScanRefs(refs, i)
    {
      if refs[i] == ' ' {
        ScanSpace(refs, i);
        hashes := hashes + [refs[startHash..startHash + HashWidth]];
        startName := i + 1;
      } else if refs[i] == '\n' {
        ScanNewline(refs, i);
        names := names + [CStr(refs[startName..i])];
        startHash := i + 1;
      } else {
        ScanOther(refs, i);
      }
      i := i + 1;
    }
  }

  /** One hash per space and one name per newline. */
  lemma {:induction false} ScanCounts(refs: string, i: nat)
    requires i <= |refs| && WindowsFit(refs)
    ensures |ScanRefs(refs, i).hashes| == Count(refs[..i], ' ')
    ensures |ScanRefs(refs, i).names| == Count(refs[..i], '\n')
  {
    if i > 0 {
      ScanCounts(refs, i - 1);
      assert refs[..i][..i - 1] == refs[..i - 1];
    }
  }

  // ---------------------------------------------------------------------------
  // Well-formed listings
  // ---------------------------------------------------------------------------

  /** A ref as a listing prints it. */
  datatype Ref = Ref(hash: string, name: string)

  /** A full-length hash and a name, neither holding a separator. */
  predicate RefOk(e: Ref) {
    |e.hash| == HashWidth && ' ' !in e.hash && '\n' !in e.hash &&
    ' ' !in e.name && '\n' !in e.name && '\0' !in e.name
  }

  function RefLine(e: Ref): string {
    e.hash + " " + e.name + "\n"
  }

  function Listing(es: seq<Ref>): (s: string)
    ensures s == [] || s[|s| - 1] == '\n'
  {
    if es == [] then [] else Listing(es[..|es| - 1]) + RefLine(es[|es| - 1])
  }

  function HashesOf(es: seq<Ref>): seq<string> {
    if es == [] then [] else HashesOf(es[..|es| - 1]) + [es[|es| - 1].hash]
  }

  function NamesOf(es: seq<Ref>): seq<string> {
    if es == [] then [] else NamesOf(es[..|es| - 1]) + [es[|es| - 1].name]
  }

  /** The scan of a prefix does not depend on what follows it. */
  lemma {:induction false} ScanPrefix(s: string, t: string, i: nat)
    requires i <= |s| && WindowsFit(s) && WindowsFit(s + t)
    ensures ScanRefs(s + t, i) == ScanRefs(s, i)
  {
    if i > 0 {
      ScanPrefix(s, t, i - 1);
      if s[i - 1] == ' ' {
        HashPrefix(s, t, i - 1);
      } else if s[i - 1] == '\n' {
        NamePrefix(s, t, i - 1);
      }
    }
  }

  /** Where a field starts inside `s` is the same inside `s + t`. */
  lemma StartAfterPrefix(s: string, t: string, c: char, j: nat)
    requires j <= |s|
    ensures StartAfter(s + t, c, j) == StartAfter(s, c, j)
  {
    assert forall k :: 0 <= k < |s| ==> (s + t)[k] == s[k];
    StartAfterAgree(s + t, s, c, j);
  }

  lemma HashPrefix(s: string, t: string, j: nat)
    requires j < |s| && s[j] == ' ' && WindowsFit(s) && WindowsFit(s + t)
    requires ScanRefs(s + t, j) == ScanRefs(s, j)
    ensures ScanRefs(s + t, j + 1) == ScanRefs(s, j + 1)
  {
    var u := s + t;
    var h := StartAfter(s, '\n', j);
    StartAfterPrefix(s, t, '\n', j);
    assert h + HashWidth <= |s| by { assert WindowFits(s, j); }
    assert u[h..h + HashWidth] == s[h..h + HashWidth];
  }

  lemma NamePrefix(s: string, t: string, j: nat)
    requires j < |s| && s[j] == '\n' && WindowsFit(s) && WindowsFit(s + t)
    requires ScanRefs(s + t, j) == ScanRefs(s, j)
    ensures ScanRefs(s + t, j + 1) == ScanRefs(s, j + 1)
  {
    var u := s + t;
    var a := StartAfter(s, ' ', j);
    StartAfterPrefix(s, t, ' ', j);
    assert u[a..j] == s[a..j];
  }

  /** Characters other than the two separators leave the scan alone. */
  lemma {:induction false} ScanSkip(refs: string, i: nat, k: nat)
    requires i <= k <= |refs| && WindowsFit(refs)
    requires forall j :: i <= j < k ==> refs[j] != ' ' && refs[j] != '\n'
    ensures ScanRefs(refs, k) == ScanRefs(refs, i)
    decreases k - i
  {
    if i < k {
      ScanSkip(refs, i, k - 1);
    }
  }

  /** Where the separators of an appended line are. */
  lemma LineLayout(s: string, e: Ref)
    requires RefOk(e)
    ensures var x := s + RefLine(e);
            |x| == |s| + HashWidth + 2 + |e.name| &&
            x[|s|..|s| + HashWidth] == e.hash && x[|s| + HashWidth] == ' ' &&
            x[|s| + HashWidth + 1..|x| - 1] == e.name && x[|x| - 1] == '\n' &&
            (forall j :: 0 <= j < |s| ==> x[j] == s[j]) &&
            (forall j :: |s| <= j < |s| + HashWidth ==> x[j] != ' ' && x[j] != '\n') &&
            (forall j :: |s| + HashWidth < j < |x| - 1 ==> x[j] != ' ' && x[j] != '\n')
  {
    var x := s + RefLine(e);
    assert x == s + e.hash + [' '] + e.name + ['\n'];
    forall j | |s| <= j < |s| + HashWidth
      ensures x[j] != ' ' && x[j] != '\n'
    {
      assert x[j] == e.hash[j - |s|];
    }
    forall j | |s| + HashWidth < j < |x| - 1
      ensures x[j] != ' ' && x[j] != '\n'
    {
      assert x[j] == e.name[j - |s| - HashWidth - 1];
    }
  }

  /** The windows of a text ending in a newline still fit once a
      well-formed line is appended. */
  lemma LineFits(s: string, e: Ref)
    requires RefOk(e) && WindowsFit(s) && (s == [] || s[|s| - 1] == '\n')
    ensures WindowsFit(s + RefLine(e))
  {
    var x := s + RefLine(e);
    var sp := |s| + HashWidth;
    LineLayout(s, e);
    forall j | 0 <= j < |x|
      ensures WindowFits(x, j)
    {
      if j < |s| {
        assert WindowFits(s, j);
        StartAfterAgree(x, s, '\n', j);
      } else if j == sp {
        assert StartAfter(x, '\n', |s|) == |s|;
        StartAfterSkip(x, '\n', |s|, sp);
      }
    }
  }

  /** Appending one well-formed line appends its hash and its name. */
  lemma ScanLine(s: string, e: Ref)
    requires RefOk(e) && WindowsFit(s) && (s == [] || s[|s| - 1] == '\n')
    ensures WindowsFit(s + RefLine(e))
    ensures ScanRefs(s + RefLine(e), |s + RefLine(e)|) ==
            var r := ScanRefs(s, |s|);
            RefLists(r.hashes + [e.hash], r.names + [e.name])
  {
    LineFits(s, e);
    var x := s + RefLine(e);
    var r := ScanRefs(s, |s|);
    assert ScanRefs(x, |s|) == r by { ScanPrefix(s, RefLine(e), |s|); }
    ScanHashPart(s, e);
    ScanNamePart(s, e, r.(hashes := r.hashes + [e.hash]));
  }

  /** The hash and the space of an appended line push the hash. */
  lemma ScanHashPart(s: string, e: Ref)
    requires RefOk(e) && (s == [] || s[|s| - 1] == '\n') && WindowsFit(s + RefLine(e))
    ensures var x := s + RefLine(e);
            var r := ScanRefs(x, |s|);
            ScanRefs(x, |s| + HashWidth + 1) == r.(hashes := r.hashes + [e.hash])
  {
    var x := s + RefLine(e);
    var sp := |s| + HashWidth;
    HashRun(s, e);
    PushHash(x, |s|, sp, e.hash);
  }

  /** A space whose line starts at `from`, with nothing pushed since, pushes
      the hash that starts there. */
  lemma PushHash(x: string, from: nat, sp: nat, hash: string)
    requires from <= sp < |x| && from + HashWidth <= |x| && WindowsFit(x) && x[sp] == ' '
    requires StartAfter(x, '\n', sp) == from && x[from..from + HashWidth] == hash
    requires ScanRefs(x, sp) == ScanRefs(x, from)
    ensures var r := ScanRefs(x, from);
            ScanRefs(x, sp + 1) == r.(hashes := r.hashes + [hash])
  {
    ScanSpace(x, sp);
  }

  /** Across the hash of an appended line nothing is pushed, and its space
      sees the line start where the line begins. */
  lemma HashRun(s: string, e: Ref)
    requires RefOk(e) && (s == [] || s[|s| - 1] == '\n') && WindowsFit(s + RefLine(e))
    ensures var x := s + RefLine(e);
            var sp := |s| + HashWidth;
            sp < |x| && x[sp] == ' ' && x[|s|..sp] == e.hash &&
            StartAfter(x, '\n', sp) == |s| && ScanRefs(x, sp) == ScanRefs(x, |s|)
  {
    var x := s + RefLine(e);
    var sp := |s| + HashWidth;
    LineLayout(s, e);
    ScanSkip(x, |s|, sp);
    assert StartAfter(x, '\n', |s|) == |s|;
    StartAfterSkip(x, '\n', |s|, sp);
  }

  /** The name and the newline of an appended line push the name. */
  lemma ScanNamePart(s: string, e: Ref, r: RefLists)
    requires RefOk(e) && WindowsFit(s + RefLine(e))
    requires ScanRefs(s + RefLine(e), |s| + HashWidth + 1) == r
    ensures var x := s + RefLine(e);
            ScanRefs(x, |x|) == r.(names := r.names + [e.name])
  {
    var x := s + RefLine(e);
    var sp := |s| + HashWidth;
    LineLayout(s, e);
    ScanSkip(x, sp + 1, |x| - 1);
    StartAfterSkip(x, ' ', sp + 1, |x| - 1);
  }

  /** Skipping characters other than `c` keeps `StartAfter` where it was. */
  lemma {:induction false} StartAfterSkip(s: string, c: char, i: nat, k: nat)
    requires i <= k <= |s| && forall j :: i <= j < k ==> s[j] != c
    ensures StartAfter(s, c, k) == StartAfter(s, c, i)
    decreases k - i
  {
    if i < k {
      StartAfterSkip(s, c, i, k - 1);
    }
  }

  /** Loading a well-formed listing gives back its hashes and names, in order. */
  lemma {:induction false} LoadListing(es: seq<Ref>)
    requires forall k :: 0 <= k < |es| ==> RefOk(es[k])
    ensures WindowsFit(Listing(es))
    ensures ScanRefs(Listing(es), |Listing(es)|) == RefLists(HashesOf(es), NamesOf(es))
  {
    if es != [] {
      var init := es[..|es| - 1];
      LoadListing(init);
      ScanLine(Listing(init), es[|es| - 1]);
    }
  }

  // ---------------------------------------------------------------------------
  // Matching refs to commits
  // ---------------------------------------------------------------------------

  /** The lowest index at or after `lo` whose hash is a prefix of the
      window `w`, or -1. */
  function FirstPrefix(w: string, hs: seq<string>, lo: nat): (r: int)
    ensures r == -1 || lo <= r < |hs|
    ensures r >= 0 ==> StartsWith(w, hs[r])
    ensures r >= 0 ==> forall c :: lo <= c < r ==> !StartsWith(w, hs[c])
    ensures r < 0 ==> forall c :: lo <= c < |hs| ==> !StartsWith(w, hs[c])
    decreases |hs| - lo
  {
    if lo >= |hs| then -1
    else if StartsWith(w, hs[lo]) then lo
    else FirstPrefix(w, hs, lo + 1)
  }

  /** The commit indices pushed for the windows `ws`: one per matched ref,
      none for a ref that matches no commit. */
  function MatchAll(ws: seq<string>, hs: seq<string>): seq<int> {
    if ws == [] then []
    else
      var c := FirstPrefix(ws[|ws| - 1], hs, 0);
      MatchAll(ws[..|ws| - 1], hs) + (if c >= 0 then [c] else [])
  }

  /** `strncmp` over a commit hash reads past the 40 characters of a
      window only when the hash is longer and starts with the window. */
  predicate NoOverread(ws: seq<string>, hs: seq<string>) {
    forall r, c | 0 <= r < |ws| && 0 <= c < |hs| :: |hs[c]| <= |ws[r]| || !StartsWith(hs[c], ws[r])
  }

  /** `ggit_match_refs_to_commits`. */
  method MatchRefs(ws: seq<string>, hs: seq<string>) returns (commits: seq<int>)
    requires NoOverread(ws, hs)
    ensures commits == MatchAll(ws, hs)
  {
    commits := [];
    var r := 0;
    while r < |ws|
      invariant 0 <= r <= |ws|
      invariant commits == MatchAll(ws[..r], hs)
    {
      var c := 0;
      var found := -1;
      while c < |hs|
        invariant 0 <= c <= |hs|
        invariant FirstPrefix(ws[r], hs, 0) == FirstPrefix(ws[r], hs, c)
      {
        if StartsWith(ws[r], hs[c]) {
          found := c;
          break;
        }
        c := c + 1;
      }
      assert found == FirstPrefix(ws[r], hs, 0);
      if found >= 0 {
        commits := commits + [found];
      }
      assert ws[..r + 1][..r] == ws[..r];
      r := r + 1;
    }
    assert ws[..r] == ws;
  }

  /** At most one index per ref, each the lowest commit whose hash is a
      prefix of some ref's window. */
  lemma {:induction false} MatchAllSound(ws: seq<string>, hs: seq<string>)
    ensures |MatchAll(ws, hs)| <= |ws|
    ensures forall k :: 0 <= k < |MatchAll(ws, hs)| ==>
      var c := MatchAll(ws, hs)[k];
      0 <= c < |hs| && exists r :: 0 <= r < |ws| && c == FirstPrefix(ws[r], hs, 0)
  {
    if ws != [] {
      var init := ws[..|ws| - 1];
      MatchAllSound(init, hs);
      var m := MatchAll(ws, hs);
      forall k | 0 <= k < |m|
        ensures 0 <= m[k] < |hs| && exists r :: 0 <= r < |ws| && m[k] == FirstPrefix(ws[r], hs, 0)
      {
        if k < |MatchAll(init, hs)| {
          var r :| 0 <= r < |init| && m[k] == FirstPrefix(init[r], hs, 0);
          assert ws[r] == init[r];
        } else {
          assert m[k] == FirstPrefix(ws[|ws| - 1], hs, 0);
        }
      }
    }
  }

  /** When every ref matches, the i-th index belongs to the i-th ref. */
  lemma {:induction false} MatchAllAligned(ws: seq<string>, hs: seq<string>)
    requires forall r :: 0 <= r < |ws| ==> FirstPrefix(ws[r], hs, 0) >= 0
    ensures |MatchAll(ws, hs)| == |ws|
    ensures forall r :: 0 <= r < |ws| ==> MatchAll(ws, hs)[r] == FirstPrefix(ws[r], hs, 0)
  {
    if ws != [] {
      var init := ws[..|ws| - 1];
      MatchAllAligned(init, hs);
      var m := MatchAll(ws, hs);
      assert m == MatchAll(init, hs) + [FirstPrefix(ws[|ws| - 1], hs, 0)];
      forall r | 0 <= r < |ws|
        ensures m[r] == FirstPrefix(ws[r], hs, 0)
      {
        if r < |init| {
          assert init[r] == ws[r];
        }
      }
    }
  }

  /** After a ref that matches nothing, the indices shift against the refs:
      here the only index pushed belongs to the second ref, yet it is the
      first one and is read together with the first ref's name. */
  lemma MatchShiftsAfterMiss()
    ensures var ws := [Repeat('a'), Repeat('b')];
            var hs := ["b"];
            MatchAll(ws, hs) == [0] && !StartsWith(ws[0], hs[0]) && StartsWith(ws[1], hs[0])
  {
    var ws := [Repeat('a'), Repeat('b')];
    assert ws[..1] == [Repeat('a')];
    assert ws[..1][..0] == [];
    assert Repeat('a')[..1] == "a";
    assert Repeat('b')[..1] == "b";
  }

  /** A window of one repeated character. */
  function Repeat(x: char): (r: string)
    ensures |r| == HashWidth && forall k :: 0 <= k < |r| ==> r[k] == x
  {
    seq(HashWidth, _ => x)
  }
}
