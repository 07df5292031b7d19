/** The commit graph of ggit-graph.c: `ggit_graph_load_repository` reads the
    log and the ref listing, resolves parents, tags every commit and sets
    the graph's width and height; `ggit_graph_clear` empties it again. */
module Graphs {
  import opened Text
  import opened Branches
  import opened MergeMessage
  import opened LogParser
  import opened Refs
  import opened Tagging

  /** Everything a graph holds, as values. */
  datatype Snapshot = Snapshot(
    width: int, height: int,
    messageLengths: seq<int>, messages: seq<string>, hashes: seq<string>,
    parents: seq<Parents>, tags: seq<Tag>,
    specialBranches: seq<SpecialBranch>,
    refNames: seq<string>, refHashes: seq<string>, refCommits: seq<int>)

  /** The subjects of the records, in order. */
  function Messages(rs: seq<Record>): (r: seq<string>)
    ensures |r| == |rs| && forall k :: 0 <= k < |rs| ==> r[k] == rs[k].msg
  {
    seq(|rs|, k requires 0 <= k < |rs| => rs[k].msg)
  }

  /** The length of each subject, which the graph keeps beside it. */
  function Lengths(ms: seq<string>): (r: seq<int>)
    ensures |r| == |ms| && forall k :: 0 <= k < |ms| ==> r[k] == |ms[k]|
  {
    seq(|ms|, k requires 0 <= k < |ms| => |ms[k]|)
  }

  /** The classes with every instance forgotten. */
  function Emptied(sbs: seq<SpecialBranch>): (r: seq<SpecialBranch>)
    ensures |r| == |sbs| && forall i :: 0 <= i < |sbs| ==> r[i] == SpecialBranch(sbs[i].prefix, [])
  {
    seq(|sbs|, i requires 0 <= i < |sbs| => SpecialBranch(sbs[i].prefix, []))
  }

  /** `n` commits nobody has tagged yet. */
  function AllUntagged(n: nat): (r: seq<Tag>)
    ensures |r| == n && forall k :: 0 <= k < n ==> r[k] == Untagged
  {
    seq(n, _ => Untagged)
  }

  /** A log and a ref listing the loader is defined on: the tokenizer and
      the ref windows stay in bounds, no commit hash is read past a ref
      window, every matched commit has a ref name to pair with, and every
      merge has a first parent and a subject the grammars are defined on. */
  predicate LoadOk(log: string, refs: string) {
    WellFormedLog(log) && WindowsFit(refs) &&
    var rs := ParseLogTo(log);
    var rl := ScanRefs(refs, |refs|);
    NoOverread(rl.hashes, Hashes(rs)) &&
    |MatchAll(rl.hashes, Hashes(rs))| <= |rl.names| &&
    MergesOk(Messages(rs), ResolveAll(rs))
  }

  /** What the loader reads before tagging: the commits of the log with
      their resolved parents, the ref listing, and the commit each ref
      hash matched. */
  datatype Inputs = Inputs(records: seq<Record>, parents: seq<Parents>,
                           refHashes: seq<string>, refNames: seq<string>, commits: seq<int>)

  /** Inputs the tag passes are defined on. */
  predicate InputsOk(inp: Inputs) {
    |inp.parents| == |inp.records| && ParentsOk(inp.parents) &&
    |inp.commits| <= |inp.refNames| &&
    (forall i :: 0 <= i < |inp.commits| ==> 0 <= inp.commits[i] < |inp.records|) &&
    MergesOk(Messages(inp.records), inp.parents)
  }

  /** The reading half of `ggit_graph_load_repository`: every parent is an
      earlier commit and every matched ref names a commit of the log. */
  function Scan(log: string, refs: string): (r: Inputs)
    requires LoadOk(log, refs)
    ensures InputsOk(r)
    ensures |r.records| == |ParseLogTo(log)|
  {
    var rs := ParseLogTo(log);
    var rl := ScanRefs(refs, |refs|);
    ParentsPrecede(rs);
    MatchAllSound(rl.hashes, Hashes(rs));
    Inputs(rs, ResolveAll(rs), rl.hashes, rl.names, MatchAll(rl.hashes, Hashes(rs)))
  }

  /** The three tag passes in the order the loader runs them: stamp the
      ref heads, label the merges, propagate down first parents. */
  function Tagged(t0: seq<Tag>, sbs: seq<SpecialBranch>, inp: Inputs): (seq<Tag>, seq<SpecialBranch>)
    requires InputsOk(inp) && |t0| == |inp.records|
  {
    var (t1, b1) := Stamp(t0, sbs, inp.refNames, inp.commits);
    var (t2, b2) := LabelMerges(t1, b1, Messages(inp.records), inp.parents, |inp.records|);
    (Propagate(t2, inp.parents), b2)
  }

  /** The graph holding the commits and refs of `inp`, tagged, when the
      classes start out as `sbs`. */
  function Build(inp: Inputs, sbs: seq<SpecialBranch>): Snapshot
    requires InputsOk(inp)
  {
    var msgs := Messages(inp.records);
    var tb := Tagged(AllUntagged(|inp.records|), sbs, inp);
    Snapshot(TotalInstances(tb.1), |inp.records|, Lengths(msgs), msgs, Hashes(inp.records), inp.parents, tb.0, tb.1,
             inp.refNames, inp.refHashes, inp.commits)
  }

  /** The graph `ggit_graph_load_repository` builds from `log` and `refs`
      when the configured classes are `sbs`: the classes are emptied first. */
  function Load(log: string, refs: string, sbs: seq<SpecialBranch>): Snapshot
    requires LoadOk(log, refs)
  {
    Build(Scan(log, refs), Emptied(sbs))
  }

  /** The reading half of `ggit_graph_load_repository`. */
  method ReadInputs(log: string, refs: string) returns (inp: Inputs)
    requires LoadOk(log, refs)
    ensures inp == Scan(log, refs)
  {
    var refHashes, refNames := LoadRefs(refs);
    var records, parents := ParseLog(log);
    var commits := MatchRefs(refHashes, Hashes(records));
    inp := Inputs(records, parents, refHashes, refNames, commits);
  }

  class Graph {
    var width: int
    var height: int
    var messageLengths: seq<int>
    var messages: seq<string>
    var hashes: seq<string>
    var parents: seq<Parents>
    var tags: array<Tag>
    var specialBranches: seq<SpecialBranch>
    var refNames: seq<string>
    var refHashes: seq<string>
    var refCommits: seq<int>

    /** The graph holds exactly `g`. */
    ghost predicate Holds(g: Snapshot)
      reads this, tags
    {
      width == g.width && height == g.height && messageLengths == g.messageLengths &&
      messages == g.messages && hashes == g.hashes && parents == g.parents && tags[..] == g.tags &&
      specialBranches == g.specialBranches &&
      refNames == g.refNames && refHashes == g.refHashes && refCommits == g.refCommits
    }

    /** The fields the tagging passes leave alone. */
    ghost function Keep(): (int, int, seq<int>, seq<string>, seq<string>, seq<Parents>, array<Tag>,
                            seq<string>, seq<string>, seq<int>)
      reads this
    {
      (width, height, messageLengths, messages, hashes, parents, tags, refNames, refHashes, refCommits)
    }

    /** `ggit_graph_init`, followed by the caller configuring one class per
        prefix in `prefixes`. */
    constructor(prefixes: seq<string>)
      ensures Holds(Snapshot(0, 0, [], [], [], [], [], Emptied(specialBranches), [], [], []))
      ensures |specialBranches| == |prefixes| &&
              forall i :: 0 <= i < |prefixes| ==> specialBranches[i] == SpecialBranch(prefixes[i], [])
      ensures fresh(tags)
    {
      width, height := 0, 0;
      messageLengths, messages, hashes, parents := [], [], [], [];
      tags := new Tag[0];
      specialBranches := seq(|prefixes|, i requires 0 <= i < |prefixes| => SpecialBranch(prefixes[i], []));
      refNames, refHashes, refCommits := [], [], [];
    }

    /** `ggit_branch_to_tag` over this graph's special branches. */
    method BranchToTag(name: string) returns (tag: Tag)
      modifies this
      ensures (tag, specialBranches) == Classify(name, old(specialBranches))
      ensures Keep() == old(Keep())
    {
      tag := Unclassified;
      if name == Head {
        return;
      }
      var i := 0;
      while i < |specialBranches|
        invariant 0 <= i <= |specialBranches| && specialBranches == old(specialBranches)
        invariant FirstClass(name, specialBranches, i) == FirstClass(name, specialBranches, 0)
      {
        var sb := specialBranches[i];
        if StartsWith(name, sb.prefix) {
          var inst := -1;
          var j := 0;
          while j < |sb.instances|
            invariant 0 <= j <= |sb.instances| && inst == -1
            invariant FindInstance(sb.instances, name, j) == FindInstance(sb.instances, name, 0)
          {
            if sb.instances[j] == name {
              inst := j;
              break;
            }
            j := j + 1;
          }
          if inst == -1 {
            inst := |sb.instances|;
            specialBranches := specialBranches[i := sb.(instances := sb.instances + [name])];
          }
          tag := Tag(i, inst, true);
          return;
        }
        i := i + 1;
      }
    }

    /** `ggit_refname_to_tag`. */
    method RefnameToTag(ref: string) returns (tag: Tag)
      modifies this
      ensures (tag, specialBranches) == ClassifyRef(ref, old(specialBranches))
      ensures Keep() == old(Keep())
    {
      if StartsWith(ref, LocalPrefix) {
        tag := BranchToTag(ref[|LocalPrefix|..]);
      } else if StartsWith(ref, RemotePrefix) {
        tag := BranchToTag(ref[|RemotePrefix|..]);
      } else {
        tag := Untagged;
      }
    }

    /** The body of the loop of `ggit_graph_load_repository` that stamps
        ref heads: the tag of the `i`-th ref name, when classified,
        overwrites the tag of the `i`-th matched commit. */
    method StampRef(t: array<Tag>, i: int)
      requires 0 <= i < |refCommits| && i < |refNames| && 0 <= refCommits[i] < t.Length
      modifies this, t
      ensures Keep() == old(Keep())
      ensures var ref := ClassifyRef(refNames[i], old(specialBranches));
              t[..] == (if ref.0.cls != -1 then old(t[..])[refCommits[i] := ref.0] else old(t[..])) &&
              specialBranches == ref.1
    {
      var index := refCommits[i];
      var refTag := RefnameToTag(refNames[i]);
      if refTag.cls != -1 {
        t[index] := refTag;
      }
    }

    /** The loop of `ggit_graph_load_repository` that stamps the commit of
        each matched ref with the tag of the ref name in the same position. */
    method StampRefs(t: array<Tag>)
      requires |refCommits| <= |refNames| && forall i :: 0 <= i < |refCommits| ==> 0 <= refCommits[i] < t.Length
      modifies this, t
      ensures Keep() == old(Keep())
      ensures t[..] == Stamp(old(t[..]), old(specialBranches), refNames, refCommits).0
      ensures specialBranches == Stamp(old(t[..]), old(specialBranches), refNames, refCommits).1
    {
      ghost var t0 := t[..];
      ghost var sb0 := specialBranches;
      var i := 0;
      while i < |refCommits|
        invariant 0 <= i <= |refCommits|
        invariant Keep() == old(Keep())
        invariant t[..] == Stamp(t0, sb0, refNames, refCommits[..i]).0
        invariant specialBranches == Stamp(t0, sb0, refNames, refCommits[..i]).1
      {
        StampRef(t, i);
        StampStep(t0, sb0, refNames, refCommits, i);
        i := i + 1;
      }
      assert refCommits[..i] == refCommits;
    }

    /** The body of the loop of `ggit_label_merge_commits` for a merge `c`
        with parents `p`: classify the names its subject gives, fall back to
        its own tag for the main branch, and write the main tag on the merge
        and its first parent and the incoming tag on its second parent. */
    method LabelMergeCommit(msg: string, t: array<Tag>, c: int, p: Parents)
      requires MergedInDefined(msg)
      requires 0 <= c < t.Length && 0 <= p.first < t.Length && 0 <= p.second < t.Length
      modifies this, t
      ensures Keep() == old(Keep())
      ensures var mt := MergeTags(msg, old(t[c]), old(specialBranches));
              t[..] == old(t[..])[c := mt.0][p.first := mt.0][p.second := mt.1] && specialBranches == mt.2
    {
      var tagMain, tagKink := Unclassified, Unclassified;
      var names := ParseMergeCommit(msg);
      if names.Some? {
        if names.value.main.Some? {
          tagMain := BranchToTag(names.value.main.value);
        }
        tagKink := BranchToTag(names.value.kink);
      }
      if tagMain.cls == -1 {
        tagMain := t[c];
      }
      t[c] := tagMain;
      t[p.first] := tagMain;
      t[p.second] := tagKink;
    }

    /** `ggit_label_merge_commits`; the width it returns is never used. */
    method LabelMergeCommits(msgs: seq<string>, ps: seq<Parents>, t: array<Tag>)
      requires t.Length == |ps| && ParentsOk(ps) && MergesOk(msgs, ps)
      modifies this, t
      ensures Keep() == old(Keep())
      ensures t[..] == LabelMerges(old(t[..]), old(specialBranches), msgs, ps, |ps|).0
      ensures specialBranches == LabelMerges(old(t[..]), old(specialBranches), msgs, ps, |ps|).1
    {
      ghost var t0 := t[..];
      ghost var sb0 := specialBranches;
      var c := 0;
      while c < |ps|
        invariant 0 <= c <= |ps|
        invariant Keep() == old(Keep())
        invariant t[..] == LabelMerges(t0, sb0, msgs, ps, c).0
        invariant specialBranches == LabelMerges(t0, sb0, msgs, ps, c).1
      {
        var p := ps[c];
        if p.second != -1 {
          LabelMergeCommit(msgs[c], t, c, p);
        }
        LabelStep(t0, sb0, msgs, ps, c);
        c := c + 1;
      }
    }

    /** The loop of `ggit_graph_clear` that empties every class. */
    method EmptyClasses()
      modifies this
      ensures specialBranches == Emptied(old(specialBranches))
    {
      var i := 0;
      while i < |specialBranches|
        invariant 0 <= i <= |specialBranches| && |specialBranches| == |old(specialBranches)|
        invariant forall k :: 0 <= k < i ==> specialBranches[k] == SpecialBranch(old(specialBranches)[k].prefix, [])
        invariant forall k :: i <= k < |specialBranches| ==> specialBranches[k] == old(specialBranches)[k]
      {
        specialBranches := specialBranches[i := specialBranches[i].(instances := [])];
        i := i + 1;
      }
    }

    /** `ggit_graph_clear`: no commits, no refs, and every class without
        instances; the classes themselves stay. */
    method Clear()
      modifies this
      ensures Holds(Snapshot(0, 0, [], [], [], [], [], Emptied(old(specialBranches)), [], [], []))
    {
      EmptyClasses();
      width, height := 0, 0;
      messageLengths, messages, hashes, parents := [], [], [], [];
      refNames, refHashes, refCommits := [], [], [];
      tags := new Tag[0];
      assert tags[..] == [];
    }

    /** The loop of `ggit_graph_load_repository` that sums the instance
        counts of the special branches. */
    method TotalWidth() returns (w: int)
      ensures w == TotalInstances(specialBranches)
    {
      w := 0;
      var i := 0;
      while i < |specialBranches|
        invariant 0 <= i <= |specialBranches|
        invariant w == TotalInstances(specialBranches[..i])
      {
        assert specialBranches[..i + 1][..i] == specialBranches[..i];
        w := w + |specialBranches[i].instances|;
        i := i + 1;
      }
      assert specialBranches[..i] == specialBranches;
    }

    /** The tagging half of `ggit_graph_load_repository`: a fresh untagged
        tag per commit, then the three tag passes. */
    method TagCommits(inp: Inputs) returns (t: array<Tag>)
      requires InputsOk(inp)
      requires refNames == inp.refNames && refCommits == inp.commits
      modifies this
      ensures fresh(t) && Keep() == old(Keep())
      ensures t[..] == Tagged(AllUntagged(|inp.records|), old(specialBranches), inp).0
      ensures specialBranches == Tagged(AllUntagged(|inp.records|), old(specialBranches), inp).1
    {
      t := new Tag[|inp.records|](_ => Untagged);
      assert t[..] == AllUntagged(|inp.records|);
      StampRefs(t);
      LabelMergeCommits(Messages(inp.records), inp.parents, t);
      PropagateTags(inp.parents, t);
    }

    /** Record the commits and refs of `inp`. */
    method Record(inp: Inputs)
      modifies this
      ensures height == |inp.records| && messages == Messages(inp.records) &&
              messageLengths == Lengths(messages) && hashes == Hashes(inp.records) && parents == inp.parents
      ensures refHashes == inp.refHashes && refNames == inp.refNames && refCommits == inp.commits
      ensures width == old(width) && tags == old(tags) && specialBranches == old(specialBranches)
    {
      var msgs := Messages(inp.records);
      refHashes, refNames, refCommits := inp.refHashes, inp.refNames, inp.commits;
      height, hashes, messages, messageLengths, parents :=
        |inp.records|, Hashes(inp.records), msgs, Lengths(msgs), inp.parents;
    }

    /** Record the inputs, tag every commit and sum the width. */
    method Populate(inp: Inputs)
      requires InputsOk(inp)
      modifies this
      ensures Holds(Build(inp, old(specialBranches)))
    {
      Record(inp);
      var t := TagCommits(inp);
      var w := TotalWidth();
      width, tags := w, t;
    }

    /** `ggit_graph_load_repository`. */
    method LoadRepository(log: string, refs: string)
      requires LoadOk(log, refs)
      modifies this
      ensures Holds(Load(log, refs, old(specialBranches)))
    {
      ghost var sb0 := specialBranches;
      Clear();
      assert specialBranches == Emptied(sb0);
      var inp := ReadInputs(log, refs);
      Populate(inp);
    }
  }

  // ---------------------------------------------------------------------------
  // The loaded graph
  // ---------------------------------------------------------------------------

  /** The built graph has one tag per commit, its width is the number of
      branch instances, and the classes only gain instances. */
  lemma BuildShape(inp: Inputs, sbs: seq<SpecialBranch>)
    requires InputsOk(inp)
    ensures var g := Build(inp, sbs);
            |g.hashes| == |g.messages| == |g.messageLengths| == |g.parents| == |g.tags| == g.height == |inp.records| &&
            g.width == TotalInstances(g.specialBranches) && Extends(sbs, g.specialBranches)
  {
    var n := |inp.records|;
    var msgs := Messages(inp.records);
    StampedAreRefHeads(AllUntagged(n), sbs, inp.refNames, inp.commits);
    var s1 := Stamp(AllUntagged(n), sbs, inp.refNames, inp.commits);
    LabelInterns(s1.0, s1.1, msgs, inp.parents, n);
    ExtendsTrans(sbs, s1.1, LabelMerges(s1.0, s1.1, msgs, inp.parents, n).1);
  }

  /** A commit that is no ref head, no merge, no parent of a merge and
      nobody's first parent stays untagged. */
  lemma BuildUntagged(inp: Inputs, sbs: seq<SpecialBranch>, k: nat)
    requires InputsOk(inp) && k < |inp.records|
    requires forall c :: 0 <= c < |inp.parents| ==> inp.parents[c].first != k
    requires forall c :: 0 <= c < |inp.parents| && inp.parents[c].second != -1 ==> c != k && inp.parents[c].second != k
    requires k !in inp.commits
    ensures Build(inp, sbs).tags[k] == Untagged
  {
    var n := |inp.records|;
    var msgs := Messages(inp.records);
    StampedAreRefHeads(AllUntagged(n), sbs, inp.refNames, inp.commits);
    var s1 := Stamp(AllUntagged(n), sbs, inp.refNames, inp.commits);
    assert s1.0[k] == Untagged;
    LabelTouchesMerges(s1.0, s1.1, msgs, inp.parents, n);
    var t2 := LabelMerges(s1.0, s1.1, msgs, inp.parents, n).0;
    assert t2[k] == Untagged;
    PropagateOnlyFirstParents(t2, inp.parents, k);
  }

  /** One commit per terminated log line, with the hash and subject the
      tokenizer gives that line (a line with fewer than two `|` keeps the
      subject of the line before it); every parent is an earlier commit; the width
      is the number of branch instances, and the classes keep their
      prefixes. */
  lemma LoadShape(log: string, refs: string, sbs: seq<SpecialBranch>)
    requires LoadOk(log, refs)
    ensures var g := Load(log, refs, sbs);
            g.height == Count(log, '\n') + Count(log, '\0') &&
            |g.hashes| == |g.messages| == |g.parents| == |g.tags| == g.height &&
            (forall k :: 0 <= k < g.height ==>
               g.hashes[k] == ParseLogTo(log)[k].hash && g.messages[k] == ParseLogTo(log)[k].msg &&
               -1 <= g.parents[k].first < k && -1 <= g.parents[k].second < k) &&
            g.width == TotalInstances(g.specialBranches) &&
            |g.specialBranches| == |sbs| &&
            forall i :: 0 <= i < |sbs| ==> g.specialBranches[i].prefix == sbs[i].prefix
  {
    var inp := Scan(log, refs);
    RecordPerLine(log);
    var e := Emptied(sbs);
    BuildShape(inp, e);
    var g := Build(inp, e);
    assert forall i :: 0 <= i < |sbs| ==> Grown(e[i], g.specialBranches[i]);
  }

  /** A commit that is no ref head, no merge, no parent of a merge and
      nobody's first parent stays untagged by the loader. */
  lemma LoadUntagged(log: string, refs: string, sbs: seq<SpecialBranch>, k: nat)
    requires LoadOk(log, refs)
    requires var inp := Scan(log, refs);
             k < |inp.records| &&
             (forall c :: 0 <= c < |inp.parents| ==> inp.parents[c].first != k) &&
             (forall c :: 0 <= c < |inp.parents| && inp.parents[c].second != -1 ==>
                c != k && inp.parents[c].second != k) &&
             k !in inp.commits
    ensures Load(log, refs, sbs).tags[k] == Untagged
  {
    BuildUntagged(Scan(log, refs), Emptied(sbs), k);
  }

  /** Loading a repository into a graph that already holds it rebuilds the
      same graph: clearing forgets the instances, and the classes keep
      their prefixes across a load. */
  lemma LoadReloads(log: string, refs: string, sbs: seq<SpecialBranch>)
    requires LoadOk(log, refs)
    ensures Load(log, refs, Load(log, refs, sbs).specialBranches) == Load(log, refs, sbs)
  {
    var g := Load(log, refs, sbs);
    LoadShape(log, refs, sbs);
    assert Emptied(g.specialBranches) == Emptied(sbs);
  }
}
