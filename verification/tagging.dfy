/** The three passes of ggit-graph.c that give every commit a tag: ref heads
    are stamped with their branch's tag, `ggit_label_merge_commits` labels
    each merge and its parents from the merge subject, and
    `ggit_propagate_tags` hands tags down first-parent links. */
module Tagging {
  import opened Text
  import opened Branches
  import opened MergeMessage
  import opened LogParser

  /** Every resolved parent is an earlier commit, and a commit's two
      parents differ. */
  predicate ParentsOk(parents: seq<Parents>) {
    forall c :: 0 <= c < |parents| ==>
      -1 <= parents[c].first < c && -1 <= parents[c].second < c &&
      (parents[c].second >= 0 ==> parents[c].second != parents[c].first)
  }

  // ---------------------------------------------------------------------------
  // Stamping ref heads
  // ---------------------------------------------------------------------------

  /** Stamping the commits `commits` of the refs named `names`, pairing the
      i-th commit index with the i-th name: a ref that classifies overwrites
      its commit's tag, strong flag included. */
  function Stamp(tags: seq<Tag>, sbs: seq<SpecialBranch>, names: seq<string>, commits: seq<int>): (r: (seq<Tag>, seq<SpecialBranch>))
    requires |commits| <= |names| && forall i :: 0 <= i < |commits| ==> 0 <= commits[i] < |tags|
    ensures |r.0| == |tags|
  {
    if commits == [] then (tags, sbs)
    else
      var n := |commits| - 1;
      var (t, b) := Stamp(tags, sbs, names, commits[..n]);
      var (tag, b2) := ClassifyRef(names[n], b);
      (if tag.cls != -1 then t[commits[n] := tag] else t, b2)
  }

  /** Stamping one more ref: its tag, when classified, overwrites its commit's. */
  lemma StampStep(tags: seq<Tag>, sbs: seq<SpecialBranch>, names: seq<string>, commits: seq<int>, i: nat)
    requires i < |commits| <= |names| && forall j :: 0 <= j < |commits| ==> 0 <= commits[j] < |tags|
    ensures var before := Stamp(tags, sbs, names, commits[..i]);
            var ref := ClassifyRef(names[i], before.1);
            Stamp(tags, sbs, names, commits[..i + 1]) ==
              (if ref.0.cls != -1 then before.0[commits[i] := ref.0] else before.0, ref.1)
  {
    assert commits[..i + 1][..i] == commits[..i];
  }

  /** A stamped tag is a strong, classified tag written on a ref's commit;
      the classes only grow. */
  lemma {:induction false} StampedAreRefHeads(tags: seq<Tag>, sbs: seq<SpecialBranch>, names: seq<string>, commits: seq<int>)
    requires |commits| <= |names| && forall i :: 0 <= i < |commits| ==> 0 <= commits[i] < |tags|
    ensures var (t, after) := Stamp(tags, sbs, names, commits);
            Extends(sbs, after) &&
            forall k :: 0 <= k < |tags| && t[k] != tags[k] ==>
              t[k].strong && t[k].cls >= 0 && exists i :: 0 <= i < |commits| && commits[i] == k
  {
    if commits == [] {
      ExtendsRefl(sbs);
    } else {
      var n := |commits| - 1;
      var (t, b) := Stamp(tags, sbs, names, commits[..n]);
      StampedAreRefHeads(tags, sbs, names, commits[..n]);
      ClassifyRefInterns(names[n], b);
      var (tag, b2) := ClassifyRef(names[n], b);
      ExtendsTrans(sbs, b, b2);
      var t2 := Stamp(tags, sbs, names, commits).0;
      forall k | 0 <= k < |tags| && t2[k] != tags[k]
        ensures t2[k].strong && t2[k].cls >= 0 && exists i :: 0 <= i < |commits| && commits[i] == k
      {
        if tag.cls != -1 && k == commits[n] {
        } else {
          assert t2[k] == t[k];
          var i :| 0 <= i < n && commits[..n][i] == k;
          assert commits[i] == k;
        }
      }
    }
  }

  /** The last ref on a commit decides its stamped tag: when that ref
      classifies, the commit ends up with exactly the tag it was given. */
  lemma StampLastRefWins(tags: seq<Tag>, sbs: seq<SpecialBranch>, names: seq<string>, commits: seq<int>, i: nat)
    requires |commits| <= |names| && forall j :: 0 <= j < |commits| ==> 0 <= commits[j] < |tags|
    requires i < |commits| && forall j :: i < j < |commits| ==> commits[j] != commits[i]
    requires ClassifyRef(names[i], Stamp(tags, sbs, names, commits[..i]).1).0.cls != -1
    ensures Stamp(tags, sbs, names, commits).0[commits[i]] ==
            ClassifyRef(names[i], Stamp(tags, sbs, names, commits[..i]).1).0
  {
    StampPrefixLastRefWins(tags, sbs, names, commits, i, |commits|);
    assert commits[..|commits|] == commits;
  }

  /** The same for the refs before `n`. */
  lemma {:induction false} StampPrefixLastRefWins(tags: seq<Tag>, sbs: seq<SpecialBranch>, names: seq<string>, commits: seq<int>, i: nat, n: nat)
    requires |commits| <= |names| && forall j :: 0 <= j < |commits| ==> 0 <= commits[j] < |tags|
    requires i < n <= |commits| && forall j :: i < j < n ==> commits[j] != commits[i]
    requires ClassifyRef(names[i], Stamp(tags, sbs, names, commits[..i]).1).0.cls != -1
    ensures Stamp(tags, sbs, names, commits[..n]).0[commits[i]] ==
            ClassifyRef(names[i], Stamp(tags, sbs, names, commits[..i]).1).0
    decreases n
  {
    StampAt(tags, sbs, names, commits, n, commits[i]);
    if i < n - 1 {
      StampPrefixLastRefWins(tags, sbs, names, commits, i, n - 1);
    }
  }

  /** Commit `k`'s tag after the refs before `n`, in terms of the refs
      before `n - 1`. */
  lemma StampAt(tags: seq<Tag>, sbs: seq<SpecialBranch>, names: seq<string>, commits: seq<int>, n: nat, k: int)
    requires 0 < n <= |commits| <= |names| && forall j :: 0 <= j < |commits| ==> 0 <= commits[j] < |tags|
    requires 0 <= k < |tags|
    ensures var before := Stamp(tags, sbs, names, commits[..n - 1]);
            var ref := ClassifyRef(names[n - 1], before.1).0;
            Stamp(tags, sbs, names, commits[..n]).0[k] == if ref.cls != -1 && commits[n - 1] == k then ref else before.0[k]
  {
    StampStep(tags, sbs, names, commits, n - 1);
  }

  // ---------------------------------------------------------------------------
  // Labelling merges
  // ---------------------------------------------------------------------------

  /** Two-parent commits have a resolved first parent (the source indexes
      the tags with -1 otherwise) and a subject every grammar is defined on. */
  predicate MergesOk(msgs: seq<string>, parents: seq<Parents>) {
    |msgs| == |parents| &&
    forall c :: 0 <= c < |parents| && parents[c].second != -1 ==>
      parents[c].first != -1 && MergedInDefined(msgs[c])
  }

  /** The main and incoming tags of a merge whose own tag is `own`: the main
      branch's tag, or `own` when the subject names none or names an
      unclassified one; the incoming branch's tag, or the unclassified tag.
      The main branch is classified before the incoming one. */
  function MergeTags(msg: string, own: Tag, sbs: seq<SpecialBranch>): (r: (Tag, Tag, seq<SpecialBranch>))
    requires MergedInDefined(msg)
    ensures r.1.strong
    ensures r.0 == own || (r.0.strong && r.0.cls >= 0)
  {
    match ParseMergeCommit(msg)
    case None => (own, Unclassified, sbs)
    case Some(names) =>
      var (m, b1) := if names.main.Some? then Classify(names.main.value, sbs) else (Unclassified, sbs);
      var (k, b2) := Classify(names.kink, b1);
      (if m.cls == -1 then own else m, k, b2)
  }

  /** Labelling a merge only interns names. */
  lemma MergeTagsInterns(msg: string, own: Tag, sbs: seq<SpecialBranch>)
    requires MergedInDefined(msg)
    ensures Extends(sbs, MergeTags(msg, own, sbs).2)
  {
    match ParseMergeCommit(msg)
    case None => ExtendsRefl(sbs);
    case Some(names) =>
      var b1 := sbs;
      if names.main.Some? {
        ClassifyInterns(names.main.value, sbs);
        b1 := Classify(names.main.value, sbs).1;
      } else {
        ExtendsRefl(sbs);
      }
      ClassifyInterns(names.kink, b1);
      ExtendsTrans(sbs, b1, Classify(names.kink, b1).1);
  }

  /** A git merge subject: the main branch is classified first and, when it
      classifies, is the merge's tag; the incoming branch is classified
      against the classes that result. */
  lemma GitMergeTags(kink: string, main: string, own: Tag, sbs: seq<SpecialBranch>)
    requires |kink| > 0 && '\'' !in kink
    ensures MergedInDefined(GitPrefix + kink + "'" + Into + main)
    ensures var r := MergeTags(GitPrefix + kink + "'" + Into + main, own, sbs);
            var (m, b1) := Classify(main, sbs);
            r.0 == (if m.cls == -1 then own else m) &&
            r.1 == Classify(kink, b1).0 && r.2 == Classify(kink, b1).1
  {
    GitRoundTrip(kink, main);
  }

  /** A "Merged in" subject names no main branch: the merge keeps its own
      tag and only the incoming branch is classified. */
  lemma MergedInMergeTags(kink: string, trailer: string, own: Tag, sbs: seq<SpecialBranch>)
    requires |kink| > 0 && ' ' !in kink
    ensures MergedInDefined(MergedInPrefix + kink + " " + trailer)
    ensures var r := MergeTags(MergedInPrefix + kink + " " + trailer, own, sbs);
            r.0 == own && r.1 == Classify(kink, sbs).0 && r.2 == Classify(kink, sbs).1
  {
    MergedInRoundTrip(kink, trailer);
  }

  /** A "Merged A into B" subject: B is classified first and, when it
      classifies, is the merge's tag; A is classified after it. */
  lemma MergedIntoMergeTags(kink: string, main: string, trailer: string, own: Tag, sbs: seq<SpecialBranch>)
    requires |kink| > 0 && ' ' !in kink && kink != "in"
    requires |main| > 0 && ' ' !in main
    requires trailer == [] || trailer[0] == ' '
    requires trailer != [] || '(' !in main
    ensures MergedInDefined(MergedPrefix + kink + Into + main + trailer)
    ensures var r := MergeTags(MergedPrefix + kink + Into + main + trailer, own, sbs);
            var (m, b1) := Classify(main, sbs);
            r.0 == (if m.cls == -1 then own else m) &&
            r.1 == Classify(kink, b1).0 && r.2 == Classify(kink, b1).1
  {
    MergedIntoRoundTrip(kink, main, trailer);
  }

  /** The tags and classes after labelling the merges among the first `n`
      commits, in increasing order: a merge sets itself and its first parent
      to the main tag and its second parent to the incoming tag. */
  function LabelMerges(tags: seq<Tag>, sbs: seq<SpecialBranch>, msgs: seq<string>, parents: seq<Parents>, n: nat): (r: (seq<Tag>, seq<SpecialBranch>))
    requires n <= |tags| == |parents| && ParentsOk(parents) && MergesOk(msgs, parents)
    ensures |r.0| == |tags|
  {
    if n == 0 then (tags, sbs)
    else
      var (t, b) := LabelMerges(tags, sbs, msgs, parents, n - 1);
      var c := n - 1;
      var p := parents[c];
      if p.second == -1 then (t, b)
      else
        var (m, k, b2) := MergeTags(msgs[c], t[c], b);
        (t[c := m][p.first := m][p.second := k], b2)
  }

  /** Labelling one more commit: a merge writes its main tag on itself and
      its first parent and its incoming tag on its second parent. */
  lemma LabelStep(tags: seq<Tag>, sbs: seq<SpecialBranch>, msgs: seq<string>, parents: seq<Parents>, n: nat)
    requires n < |tags| == |parents| && ParentsOk(parents) && MergesOk(msgs, parents)
    ensures var before := LabelMerges(tags, sbs, msgs, parents, n);
            var p := parents[n];
            LabelMerges(tags, sbs, msgs, parents, n + 1) ==
              if p.second == -1 then before
              else
                var mt := MergeTags(msgs[n], before.0[n], before.1);
                (before.0[n := mt.0][p.first := mt.0][p.second := mt.1], mt.2)
  {
  }

  /** One merge: whatever its parents carried before, strong or not, the
      merge and its first parent end with the same tag (its own, or a
      classified one) and the second parent ends with a strong tag. */
  lemma MergeStep(tags: seq<Tag>, sbs: seq<SpecialBranch>, msgs: seq<string>, parents: seq<Parents>, n: nat)
    requires 0 < n <= |tags| == |parents| && ParentsOk(parents) && MergesOk(msgs, parents)
    requires parents[n - 1].second != -1
    ensures var before := LabelMerges(tags, sbs, msgs, parents, n - 1).0;
            var after := LabelMerges(tags, sbs, msgs, parents, n).0;
            var p := parents[n - 1];
            after[n - 1] == after[p.first] && after[p.second].strong &&
            (after[n - 1] == before[n - 1] || (after[n - 1].strong && after[n - 1].cls >= 0)) &&
            forall k :: 0 <= k < |tags| && k != n - 1 && k != p.first && k != p.second ==> after[k] == before[k]
  {
  }

  /** Labelling one more merge only interns names. */
  lemma LabelStepInterns(tags: seq<Tag>, sbs: seq<SpecialBranch>, msgs: seq<string>, parents: seq<Parents>, n: nat)
    requires 0 < n <= |tags| == |parents| && ParentsOk(parents) && MergesOk(msgs, parents)
    requires parents[n - 1].second != -1
    ensures Extends(LabelMerges(tags, sbs, msgs, parents, n - 1).1, LabelMerges(tags, sbs, msgs, parents, n).1)
  {
    var t := LabelMerges(tags, sbs, msgs, parents, n - 1).0;
    var b := LabelMerges(tags, sbs, msgs, parents, n - 1).1;
    MergeTagsInterns(msgs[n - 1], t[n - 1], b);
  }

  /** Labelling only interns names. */
  lemma {:induction false} LabelInterns(tags: seq<Tag>, sbs: seq<SpecialBranch>, msgs: seq<string>, parents: seq<Parents>, n: nat)
    requires n <= |tags| == |parents| && ParentsOk(parents) && MergesOk(msgs, parents)
    ensures Extends(sbs, LabelMerges(tags, sbs, msgs, parents, n).1)
  {
    if n == 0 {
      ExtendsRefl(sbs);
    } else {
      LabelInterns(tags, sbs, msgs, parents, n - 1);
      var b := LabelMerges(tags, sbs, msgs, parents, n - 1).1;
      if parents[n - 1].second != -1 {
        LabelStepInterns(tags, sbs, msgs, parents, n);
        ExtendsTrans(sbs, b, LabelMerges(tags, sbs, msgs, parents, n).1);
      }
    }
  }

  /** Only merges and their parents are relabelled. */
  lemma {:induction false} LabelTouchesMerges(tags: seq<Tag>, sbs: seq<SpecialBranch>, msgs: seq<string>, parents: seq<Parents>, n: nat)
    requires n <= |tags| == |parents| && ParentsOk(parents) && MergesOk(msgs, parents)
    ensures var t := LabelMerges(tags, sbs, msgs, parents, n).0;
            forall k :: 0 <= k < |tags| && t[k] != tags[k] ==>
              exists c :: 0 <= c < n && parents[c].second != -1 &&
                          (k == c || k == parents[c].first || k == parents[c].second)
  {
    if n > 0 {
      LabelTouchesMerges(tags, sbs, msgs, parents, n - 1);
      var t := LabelMerges(tags, sbs, msgs, parents, n - 1).0;
      var t2 := LabelMerges(tags, sbs, msgs, parents, n).0;
      var c := n - 1;
      var p := parents[c];
      assert forall k :: 0 <= k < |tags| && k != c && k != p.first && k != p.second ==> t2[k] == t[k] by {
        if p.second != -1 {
          MergeStep(tags, sbs, msgs, parents, n);
        }
      }
      forall k | 0 <= k < |tags| && t2[k] != tags[k]
        ensures exists c' :: 0 <= c' < n && parents[c'].second != -1 &&
                             (k == c' || k == parents[c'].first || k == parents[c'].second)
      {
        if p.second != -1 && (k == c || k == p.first || k == p.second) {
        } else {
          assert t2[k] == t[k];
        }
      }
    }
  }

  // ---------------------------------------------------------------------------
  // Propagation
  // ---------------------------------------------------------------------------

  /** Commit `c` hands its tag to its first parent: unless that parent is
      strong, a parent whose class is -1 or greater than the child's takes
      the child's tag, made non-strong. */
  function PropagateStep(t: seq<Tag>, parents: seq<Parents>, c: nat): (r: seq<Tag>)
    requires c < |t| == |parents| && ParentsOk(parents)
    ensures |r| == |t|
  {
    var p := parents[c].first;
    if p == -1 || t[p].strong then t
    else if t[p].cls == -1 || t[p].cls > t[c].cls then t[p := t[c].(strong := false)]
    else t
  }

  /** The tags once commits `|t| - 1` down to `lo` have been handled. */
  function PropagateFrom(t: seq<Tag>, parents: seq<Parents>, lo: nat): (r: seq<Tag>)
    requires lo <= |t| == |parents| && ParentsOk(parents)
    ensures |r| == |t|
    decreases |t| - lo
  {
    if lo == |t| then t else PropagateStep(PropagateFrom(t, parents, lo + 1), parents, lo)
  }

  function Propagate(t: seq<Tag>, parents: seq<Parents>): seq<Tag>
    requires |t| == |parents| && ParentsOk(parents)
  {
    PropagateFrom(t, parents, 0)
  }

  /** Propagation keeps every strong tag and every strong flag, and a tag it
      changes is a non-strong copy of the final tag of a child whose first
      parent it is; so only first parents are ever written. */
  lemma {:induction false} PropagateCopies(t: seq<Tag>, parents: seq<Parents>, lo: nat)
    requires lo <= |t| == |parents| && ParentsOk(parents)
    ensures var r := PropagateFrom(t, parents, lo);
            (forall k :: 0 <= k < |t| ==> r[k].strong == t[k].strong) &&
            (forall k :: 0 <= k < |t| && t[k].strong ==> r[k] == t[k]) &&
            forall k :: 0 <= k < |t| && r[k] != t[k] ==>
              exists c :: lo <= c < |t| && parents[c].first == k && r[k] == r[c].(strong := false)
    decreases |t| - lo
  {
    if lo < |t| {
      PropagateCopies(t, parents, lo + 1);
      var s := PropagateFrom(t, parents, lo + 1);
      var r := PropagateFrom(t, parents, lo);
      var p := parents[lo].first;
      forall k | 0 <= k < |t| && r[k] != t[k]
        ensures exists c :: lo <= c < |t| && parents[c].first == k && r[k] == r[c].(strong := false)
      {
        if k == p && r[k] != s[k] {
          assert r[lo] == s[lo];
        } else {
          assert r[k] == s[k];
          var c :| lo + 1 <= c < |t| && parents[c].first == k && s[k] == s[c].(strong := false);
          assert r[c] == s[c];
        }
      }
    }
  }

  /** A commit that is nobody's first parent keeps its tag. */
  lemma PropagateOnlyFirstParents(t: seq<Tag>, parents: seq<Parents>, k: nat)
    requires |t| == |parents| && ParentsOk(parents) && k < |t|
    requires forall c :: 0 <= c < |t| ==> parents[c].first != k
    ensures Propagate(t, parents)[k] == t[k]
  {
    PropagateCopies(t, parents, 0);
  }

  /** Propagation depends on the order of siblings: commits 1 and 2 both
      have commit 0 as first parent, and the untagged one, handled last,
      overwrites the class commit 2 handed down. With the two children's
      tags exchanged, commit 0 keeps the class. */
  lemma PropagateLastChildWins()
    ensures var parents := [Parents(-1, -1), Parents(0, -1), Parents(0, -1)];
            ParentsOk(parents) &&
            Propagate([Untagged, Untagged, Tag(0, 0, true)], parents)[0] == Untagged &&
            Propagate([Untagged, Tag(0, 0, true), Untagged], parents)[0] == Tag(0, 0, false)
  {
    var parents := [Parents(-1, -1), Parents(0, -1), Parents(0, -1)];
    var t := [Untagged, Untagged, Tag(0, 0, true)];
    assert PropagateFrom(t, parents, 2) == [Tag(0, 0, false), Untagged, Tag(0, 0, true)];
    assert PropagateFrom(t, parents, 1) == [Untagged, Untagged, Tag(0, 0, true)];
    var u := [Untagged, Tag(0, 0, true), Untagged];
    assert PropagateFrom(u, parents, 2) == u;
    assert PropagateFrom(u, parents, 1) == [Tag(0, 0, false), Tag(0, 0, true), Untagged];
  }

  /** Steps `lo` to `hi - 1` leave commit `k` alone when none of them has
      `k` as first parent. */
  lemma {:induction false} PropagateKeeps(t: seq<Tag>, parents: seq<Parents>, lo: nat, hi: nat, k: nat)
    requires lo <= hi <= |t| == |parents| && ParentsOk(parents) && k < |t|
    requires forall d :: lo <= d < hi ==> parents[d].first != k
    ensures PropagateFrom(t, parents, lo)[k] == PropagateFrom(t, parents, hi)[k]
    decreases hi - lo
  {
    if lo < hi {
      PropagateKeeps(t, parents, lo + 1, hi, k);
    }
  }

  /** The child with the lowest index, handled last, decides what a
      non-strong first parent ends with: either the child's final tag,
      made non-strong, or a class of the parent's that is not -1 and not
      greater than the child's. In particular a child whose final class is
      -1 always clears its first parent. */
  lemma PropagateLastChildDecides(t: seq<Tag>, parents: seq<Parents>, c: nat)
    requires |t| == |parents| && ParentsOk(parents) && c < |t|
    requires parents[c].first != -1 && !t[parents[c].first].strong
    requires forall d :: 0 <= d < c ==> parents[d].first != parents[c].first
    ensures var r := Propagate(t, parents); var k := parents[c].first;
            r[k] == r[c].(strong := false) || (r[k].cls != -1 && r[k].cls <= r[c].cls)
  {
    var k := parents[c].first;
    PropagateCopies(t, parents, c + 1);
    PropagateKeeps(t, parents, 0, c, k);
    PropagateKeeps(t, parents, 0, c, c);
  }

  /** `ggit_propagate_tags`, over the tag array in place. */
  method PropagateTags(parents: seq<Parents>, tags: array<Tag>)
    requires tags.Length == |parents| && ParentsOk(parents)
    modifies tags
    ensures tags[..] == Propagate(old(tags[..]), parents)
  {
    ghost var t0 := tags[..];
    var c := tags.Length - 1;
    while c >= 0
      invariant -1 <= c < tags.Length
      invariant tags[..] == PropagateFrom(t0, parents, c + 1)
    {
      var p := parents[c].first;
      if p != -1 {
        if !tags[p].strong && (tags[p].cls == -1 || tags[p].cls > tags[c].cls) {
          tags[p] := tags[c].(strong := false);
        }
      }
      c := c - 1;
    }
  }
}
