/** The branch classifier of ggit-graph.c: `ggit_branch_to_tag` files a
    branch name under the first special branch whose `match` prefixes it and
    interns the name among that class's instances; `ggit_refname_to_tag`
    first strips the ref namespace. */
module Branches {
  import opened Text

  /** A commit's tag: its class (-1 for none), its instance inside that
      class, and whether later passes must leave it alone. */
  datatype Tag = Tag(cls: int, inst: int, strong: bool)

  /** A commit nobody has tagged yet: `{ { -1, -1 } }`, `strong` zero-filled. */
  const Untagged := Tag(-1, -1, false)

  /** What `ggit_branch_to_tag` starts from and returns for a name it does
      not classify. */
  const Unclassified := Tag(-1, -1, true)

  /** A configured class of branches and the names seen in it so far. */
  datatype SpecialBranch = SpecialBranch(prefix: string, instances: seq<string>)

  const Head := "HEAD"
  const LocalPrefix := "refs/heads/"
  const RemotePrefix := "refs/remotes/origin/"

  /** The first class at or after `lo` whose `match` (here `prefix`) is a prefix of `name`. */
  function FirstClass(name: string, sbs: seq<SpecialBranch>, lo: nat): (r: int)
    ensures r == -1 || lo <= r < |sbs|
    ensures r >= 0 ==> StartsWith(name, sbs[r].prefix)
    ensures forall i :: lo <= i < |sbs| && (r < 0 || i < r) ==> !StartsWith(name, sbs[i].prefix)
    decreases |sbs| - lo
  {
    if lo >= |sbs| then -1
    else if StartsWith(name, sbs[lo].prefix) then lo
    else FirstClass(name, sbs, lo + 1)
  }

  /** The first position at or after `lo` holding `name`. */
  function FindInstance(names: seq<string>, name: string, lo: nat): (r: int)
    ensures r == -1 || lo <= r < |names|
    ensures r >= 0 ==> names[r] == name
    ensures forall j :: lo <= j < |names| && (r < 0 || j < r) ==> names[j] != name
    decreases |names| - lo
  {
    if lo >= |names| then -1
    else if names[lo] == name then lo
    else FindInstance(names, name, lo + 1)
  }

  /** `ggit_branch_to_tag`: the tag of `name` and the classes after
      interning it. "HEAD" and a name no class matches are left
      unclassified; otherwise the first matching class wins and the name
      reuses its instance index, or is appended as a new instance. */
  function Classify(name: string, sbs: seq<SpecialBranch>): (r: (Tag, seq<SpecialBranch>))
    ensures r.0.strong && |r.1| == |sbs|
    ensures r.0.cls == -1 <==> name == Head || forall i :: 0 <= i < |sbs| ==> !StartsWith(name, sbs[i].prefix)
    ensures r.0.cls == -1 ==> r.0 == Unclassified && r.1 == sbs
    ensures r.0.cls >= 0 ==>
      r.0.cls < |sbs| && StartsWith(name, sbs[r.0.cls].prefix) &&
      (forall i :: 0 <= i < r.0.cls ==> !StartsWith(name, sbs[i].prefix)) &&
      0 <= r.0.inst < |r.1[r.0.cls].instances| && r.1[r.0.cls].instances[r.0.inst] == name &&
      forall j :: 0 <= j < r.0.inst ==> r.1[r.0.cls].instances[j] != name
  {
    if name == Head then (Unclassified, sbs)
    else
      var i := FirstClass(name, sbs, 0);
      if i < 0 then (Unclassified, sbs)
      else
        var insts := sbs[i].instances;
        var j := FindInstance(insts, name, 0);
        if j >= 0 then (Tag(i, j, true), sbs)
        else (Tag(i, |insts|, true), sbs[i := sbs[i].(instances := insts + [name])])
  }

  /** `ggit_refname_to_tag`: local and `origin` branches are classified by
      their short name; every other ref is left untagged. */
  function ClassifyRef(ref: string, sbs: seq<SpecialBranch>): (Tag, seq<SpecialBranch>) {
    if StartsWith(ref, LocalPrefix) then Classify(ref[|LocalPrefix|..], sbs)
    else if StartsWith(ref, RemotePrefix) then Classify(ref[|RemotePrefix|..], sbs)
    else (Untagged, sbs)
  }

  // ---------------------------------------------------------------------------
  // Interning
  // ---------------------------------------------------------------------------

  /** Class `b` is class `a` with names appended to its instances. */
  predicate Grown(a: SpecialBranch, b: SpecialBranch) {
    b.prefix == a.prefix && |a.instances| <= |b.instances| && b.instances[..|a.instances|] == a.instances
  }

  /** `after` is `before` with names appended to some classes' instances. */
  predicate Extends(before: seq<SpecialBranch>, after: seq<SpecialBranch>) {
    |after| == |before| && forall i :: 0 <= i < |before| ==> Grown(before[i], after[i])
  }

  lemma ExtendsRefl(sbs: seq<SpecialBranch>)
    ensures Extends(sbs, sbs)
  {
    forall i | 0 <= i < |sbs|
      ensures Grown(sbs[i], sbs[i])
    {
      assert sbs[i].instances[..|sbs[i].instances|] == sbs[i].instances;
    }
  }

  lemma ExtendsTrans(a: seq<SpecialBranch>, b: seq<SpecialBranch>, c: seq<SpecialBranch>)
    requires Extends(a, b) && Extends(b, c)
    ensures Extends(a, c)
  {
    forall i | 0 <= i < |a|
      ensures Grown(a[i], c[i])
    {
      assert Grown(a[i], b[i]) && Grown(b[i], c[i]);
      assert c[i].instances[..|a[i].instances|] == c[i].instances[..|b[i].instances|][..|a[i].instances|];
    }
  }

  /** The total number of instances: the graph's width once loading ends. */
  function TotalInstances(sbs: seq<SpecialBranch>): nat {
    if sbs == [] then 0 else TotalInstances(sbs[..|sbs| - 1]) + |sbs[|sbs| - 1].instances|
  }

  /** Growing one class by one instance grows the total by one. */
  lemma {:induction false} TotalGrows(sbs: seq<SpecialBranch>, i: nat, name: string)
    requires i < |sbs|
    ensures TotalInstances(sbs[i := sbs[i].(instances := sbs[i].instances + [name])]) == TotalInstances(sbs) + 1
  {
    var t := sbs[i := sbs[i].(instances := sbs[i].instances + [name])];
    if i == |sbs| - 1 {
      assert t[..|t| - 1] == sbs[..|sbs| - 1];
    } else {
      var init := sbs[..|sbs| - 1];
      TotalGrows(init, i, name);
      assert t[..|t| - 1] == init[i := init[i].(instances := init[i].instances + [name])];
    }
  }

  /** Classifying only appends the name to its class, and only when it is
      new there: the classes, their matches and the names already interned
      stay, and the total grows by at most one. */
  lemma ClassifyInterns(name: string, sbs: seq<SpecialBranch>)
    ensures var (t, after) := Classify(name, sbs);
            Extends(sbs, after) &&
            (after == sbs || (t.cls >= 0 && t.inst == |sbs[t.cls].instances| &&
                              after == sbs[t.cls := sbs[t.cls].(instances := sbs[t.cls].instances + [name])])) &&
            TotalInstances(after) == TotalInstances(sbs) + (if after == sbs then 0 else 1)
  {
    var (t, after) := Classify(name, sbs);
    ExtendsRefl(sbs);
    if after != sbs {
      var i := t.cls;
      TotalGrows(sbs, i, name);
      assert after[i].instances[..|sbs[i].instances|] == sbs[i].instances;
      assert Grown(sbs[i], after[i]);
    }
  }

  /** Classifying a name a second time gives the same tag and interns
      nothing more. */
  lemma ClassifyIdempotent(name: string, sbs: seq<SpecialBranch>)
    ensures var (t, after) := Classify(name, sbs);
            Classify(name, after) == (t, after)
  {
    var (t, after) := Classify(name, sbs);
    ClassifyInterns(name, sbs);
    if t.cls >= 0 {
      assert FirstClass(name, after, 0) == t.cls by {
        assert forall i :: 0 <= i < |sbs| ==> after[i].prefix == sbs[i].prefix;
      }
      assert FindInstance(after[t.cls].instances, name, 0) == t.inst;
    } else {
      assert after == sbs;
    }
  }

  /** Refs under `refs/heads/` are classified by their branch name. */
  lemma LocalRef(branch: string, sbs: seq<SpecialBranch>)
    ensures ClassifyRef(LocalPrefix + branch, sbs) == Classify(branch, sbs)
  {
    assert (LocalPrefix + branch)[..|LocalPrefix|] == LocalPrefix;
    assert (LocalPrefix + branch)[|LocalPrefix|..] == branch;
  }

  /** Refs under `refs/remotes/origin/` are classified by their branch name. */
  lemma RemoteRef(branch: string, sbs: seq<SpecialBranch>)
    ensures ClassifyRef(RemotePrefix + branch, sbs) == Classify(branch, sbs)
  {
    var r := RemotePrefix + branch;
    assert r[..|RemotePrefix|] == RemotePrefix;
    assert r[|RemotePrefix|..] == branch;
    assert r[..|LocalPrefix|] != LocalPrefix by { assert r[5] != LocalPrefix[5]; }
  }

  /** Every other ref, tags and stashes included, is untagged and interns nothing. */
  lemma OtherRef(ref: string, sbs: seq<SpecialBranch>)
    requires !StartsWith(ref, LocalPrefix) && !StartsWith(ref, RemotePrefix)
    ensures ClassifyRef(ref, sbs) == (Untagged, sbs)
  {
  }

  /** A ref's tag is the plain tag of a branch, or untagged; either way the
      classes only grow. */
  lemma ClassifyRefInterns(ref: string, sbs: seq<SpecialBranch>)
    ensures var (t, after) := ClassifyRef(ref, sbs);
            Extends(sbs, after) && TotalInstances(sbs) <= TotalInstances(after) <= TotalInstances(sbs) + 1 &&
            (t.cls == -1 ==> after == sbs) && (t.cls >= 0 ==> t.strong)
  {
    if StartsWith(ref, LocalPrefix) {
      ClassifyInterns(ref[|LocalPrefix|..], sbs);
    } else if StartsWith(ref, RemotePrefix) {
      ClassifyInterns(ref[|RemotePrefix|..], sbs);
    } else {
      ExtendsRefl(sbs);
    }
  }
}
