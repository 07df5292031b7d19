/** The merge-subject grammars of ggit-graph.c: three hand-written recognisers
    that pull the main branch and the incoming ("kink") branch out of the
    subject line of a two-parent commit, tried in a fixed order. */
module MergeMessage {
  import opened Text

  datatype Option<T> = None | Some(value: T)

  /** The names a grammar extracts. `main` is absent when the grammar does not
      name the branch merged into (its out-pointer stays null in the source). */
  datatype MergeNames = MergeNames(main: Option<string>, kink: string)

  const GitPrefix := "Merge branch '"
  const MergedInPrefix := "Merged in "
  const MergedPrefix := "Merged "
  const Into := " into "
  const DefaultMain := "master"

  /** git's own format `Merge branch '<kink>'[ into <main>]`. */
  function ParseGit(m: string): Option<MergeNames> {
    if !StartsWith(m, GitPrefix) then None
    else
      var rest := m[|GitPrefix|..];
      var quote := IndexOf(rest, '\'');
      if quote <= 0 then None
      else
        var kink := rest[..quote];
        var main :=
          if quote + |GitPrefix| + 1 != |m| then
            var leftover := rest[quote + 1..];
            if StartsWith(leftover, Into) then leftover[|Into|..] else DefaultMain
          else DefaultMain;
        Some(MergeNames(Some(main), kink))
  }

  /** The one input on which "Merged in" is undefined in the source: a name
      followed by '(' but never by a space hands length -1 to `strndup`. */
  predicate MergedInDefined(m: string) {
    StartsWith(m, MergedInPrefix) ==>
      var rest := m[|MergedInPrefix|..];
      !(IndexOf(rest, ' ') < 0 && IndexOf(rest, '(') > 0)
  }

  /** Bitbucket's `Merged in <kink> (pull request #N)`. */
  function ParseMergedIn(m: string): Option<MergeNames>
    requires MergedInDefined(m)
  {
    if !StartsWith(m, MergedInPrefix) then None
    else
      var rest := m[|MergedInPrefix|..];
      var space := IndexOf(rest, ' ');
      var paren := IndexOf(rest, '(');
      if space <= 0 && paren <= 0 then None
      else Some(MergeNames(None, rest[..space]))
  }

  /** Bitbucket's `Merged <kink> into <main> (pull request #N)`. */
  function ParseMergedInto(m: string): Option<MergeNames> {
    if !StartsWith(m, MergedPrefix) then None
    else
      var rest := m[|MergedPrefix|..];
      var space := IndexOf(rest, ' ');
      if space <= 0 then None
      else
        var kink := rest[..space];
        if !StartsWith(rest[space..], Into) then None
        else
          var tail := rest[space + |Into|..];
          var space2 := IndexOf(tail, ' ');
          var paren := IndexOf(tail, '(');
          var len := if space2 > 0 then space2 else if paren > 0 then paren else |tail|;
          Some(MergeNames(Some(tail[..len]), kink))
  }

  /** `ggit_parse_merge_commit`: the first grammar that succeeds, in the order
      git, "Merged in", "Merged A into B"; None when all three decline. */
  function ParseMergeCommit(m: string): (r: Option<MergeNames>)
    requires MergedInDefined(m)
    ensures r.Some? <==>
      ParseGit(m).Some? || ParseMergedIn(m).Some? || ParseMergedInto(m).Some?
    ensures ParseGit(m).Some? ==> r == ParseGit(m)
    ensures ParseGit(m).None? && ParseMergedIn(m).Some? ==> r == ParseMergedIn(m)
    ensures ParseGit(m).None? && ParseMergedIn(m).None? ==> r == ParseMergedInto(m)
  {
    var git := ParseGit(m);
    if git.Some? then git
    else
      var mergedIn := ParseMergedIn(m);
      if mergedIn.Some? then mergedIn
      else ParseMergedInto(m)
  }

  /** What the git grammar accepts: a non-empty quoted name free of quotes, and
      a main branch that is either "master" or everything after " into ". */
  lemma GitShape(m: string)
    requires ParseGit(m).Some?
    ensures var n := ParseGit(m).value;
      n.main.Some? && |n.kink| > 0 && '\'' !in n.kink &&
      StartsWith(m, GitPrefix + n.kink + "'") &&
      (n.main.value == DefaultMain || m == GitPrefix + n.kink + "'" + Into + n.main.value)
  {
    var rest := m[|GitPrefix|..];
    var quote := IndexOf(rest, '\'');
    assert 0 < quote && ParseGit(m).value.kink == rest[..quote];
    GitQuote(m, rest, quote);
    GitMain(m, rest, quote);
  }

  /** The quoted name of a git subject. */
  lemma GitQuote(m: string, rest: string, quote: int)
    requires StartsWith(m, GitPrefix)
    requires rest == m[|GitPrefix|..] && 0 <= quote == IndexOf(rest, '\'')
    ensures StartsWith(m, GitPrefix + rest[..quote] + "'")
  {
    CutAt(rest, quote);
    StartsWithThen(m, GitPrefix, rest[..quote] + "'");
  }

  /** The main branch of an accepted git subject. */
  lemma GitMain(m: string, rest: string, quote: int)
    requires ParseGit(m).Some?
    requires rest == m[|GitPrefix|..] && 0 < quote == IndexOf(rest, '\'')
    ensures var main := ParseGit(m).value.main;
      main.Some? &&
      (main.value == DefaultMain || m == GitPrefix + rest[..quote] + "'" + Into + main.value)
  {
    var main := ParseGit(m).value.main.value;
    if main != DefaultMain {
      var leftover := rest[quote + 1..];
      assert StartsWith(leftover, Into) && main == leftover[|Into|..];
      Rejoin(m, |GitPrefix|, quote, |Into|);
    }
  }

  /** The first `k` characters of `s` followed by the character at `k`. */
  lemma CutAt(s: string, k: int)
    requires 0 <= k < |s|
    ensures StartsWith(s, s[..k] + [s[k]])
  {
    assert s[..k + 1] == s[..k] + [s[k]];
  }

  /** A text cut into a head, a name, one separator character, a keyword and a tail. */
  lemma Rejoin(m: string, a: nat, q: nat, b: nat)
    requires a + q + 1 + b <= |m|
    ensures var rest := m[a..];
      m == m[..a] + rest[..q] + [rest[q]] + rest[q + 1..][..b] + rest[q + 1..][b..]
  {
    var rest := m[a..];
    assert m == m[..a] + rest;
    assert rest == rest[..q] + [rest[q]] + rest[q + 1..];
    assert rest[q + 1..] == rest[q + 1..][..b] + rest[q + 1..][b..];
  }

  /** The git grammar declines exactly when the subject lacks the prefix, or
      no closing quote follows it, or the quoted name is empty. */
  lemma GitDeclines(m: string)
    ensures ParseGit(m).None? <==>
      !StartsWith(m, GitPrefix) || '\'' !in m[|GitPrefix|..] || m[|GitPrefix|] == '\''
  {
    if StartsWith(m, GitPrefix) {
      var rest := m[|GitPrefix|..];
      if '\'' in rest && rest[0] == '\'' {
        IndexOfUnique(rest, '\'', 0);
      }
    }
  }

  /** What "Merged in" accepts: a name without spaces followed by a space. */
  lemma MergedInShape(m: string)
    requires MergedInDefined(m) && ParseMergedIn(m).Some?
    ensures var n := ParseMergedIn(m).value;
      n.main.None? && ' ' !in n.kink && StartsWith(m, MergedInPrefix + n.kink + " ")
  {
    var n := ParseMergedIn(m).value;
    var rest := m[|MergedInPrefix|..];
    var space := IndexOf(rest, ' ');
    assert StartsWith(rest, n.kink + " ") by {
      assert rest[..space + 1] == rest[..space] + [rest[space]];
    }
    StartsWithThen(m, MergedInPrefix, n.kink + " ");
  }

  /** What "Merged A into B" accepts: a non-empty A without spaces directly
      followed by " into ", then B. */
  lemma MergedIntoShape(m: string)
    requires ParseMergedInto(m).Some?
    ensures var n := ParseMergedInto(m).value;
      n.main.Some? && |n.kink| > 0 && ' ' !in n.kink &&
      StartsWith(m, MergedPrefix + n.kink + Into + n.main.value)
  {
    var n := ParseMergedInto(m).value;
    var rest := m[|MergedPrefix|..];
    var space := IndexOf(rest, ' ');
    var tail := rest[space + |Into|..];
    Chain4(m, MergedPrefix, n.kink, Into, n.main.value);
  }

  /** Four consecutive pieces of a text. */
  lemma Chain4(m: string, a: string, b: string, c: string, d: string)
    requires StartsWith(m, a)
    requires StartsWith(m[|a|..], b)
    requires StartsWith(m[|a| + |b|..], c)
    requires StartsWith(m[|a| + |b| + |c|..], d)
    ensures StartsWith(m, a + b + c + d)
  {
    var m1 := m[|a|..];
    assert m1[|b|..] == m[|a| + |b|..];
    var m2 := m1[|b|..];
    assert m2[|c|..] == m[|a| + |b| + |c|..];
    StartsWithThen(m2, c, d);
    StartsWithThen(m1, b, c + d);
    StartsWithThen(m, a, b + (c + d));
    assert a + (b + (c + d)) == a + b + c + d;
  }

  /** "Merge branch" and "Merged" part at their sixth character. */
  lemma GitIsNotMerged(m: string)
    requires StartsWith(m, GitPrefix)
    ensures !StartsWith(m, MergedPrefix) && !StartsWith(m, MergedInPrefix)
  {
    assert m[5] == GitPrefix[5] == ' ';
    assert MergedPrefix[5] == 'd' && MergedInPrefix[5] == 'd';
  }

  /** The git grammar never overlaps the Bitbucket ones, so its place in the
      order decides nothing: a subject it accepts is declined by both others. */
  lemma GitExcludesBitbucket(m: string)
    requires ParseGit(m).Some?
    ensures MergedInDefined(m)
    ensures ParseMergedIn(m).None? && ParseMergedInto(m).None?
  {
    GitIsNotMerged(m);
  }

  /** Round trip for git's own format with an " into " clause. */
  lemma GitRoundTrip(kink: string, main: string)
    requires |kink| > 0 && '\'' !in kink
    ensures MergedInDefined(GitPrefix + kink + "'" + Into + main)
    ensures ParseMergeCommit(GitPrefix + kink + "'" + Into + main) ==
            Some(MergeNames(Some(main), kink))
  {
    var m := GitPrefix + kink + "'" + Into + main;
    GitQuoted(m, kink, Into + main);
    assert StartsWith(Into + main, Into);
    assert (Into + main)[|Into|..] == main;
    GitExcludesBitbucket(m);
  }

  /** Without an " into " clause git's format names "master" as the main branch. */
  lemma GitDefaultsToMaster(kink: string, trailer: string)
    requires |kink| > 0 && '\'' !in kink && !StartsWith(trailer, Into)
    ensures MergedInDefined(GitPrefix + kink + "'" + trailer)
    ensures ParseMergeCommit(GitPrefix + kink + "'" + trailer) ==
            Some(MergeNames(Some(DefaultMain), kink))
  {
    var m := GitPrefix + kink + "'" + trailer;
    GitQuoted(m, kink, trailer);
    GitExcludesBitbucket(m);
  }

  /** Locates the closing quote of a git subject built from its pieces. */
  lemma GitQuoted(m: string, kink: string, trailer: string)
    requires |kink| > 0 && '\'' !in kink && m == GitPrefix + kink + "'" + trailer
    ensures StartsWith(m, GitPrefix)
    ensures var rest := m[|GitPrefix|..];
      IndexOf(rest, '\'') == |kink| && rest[..|kink|] == kink && rest[|kink| + 1..] == trailer
    ensures |kink| + |GitPrefix| + 1 == |m| <==> trailer == []
  {
    var rest := m[|GitPrefix|..];
    assert m == GitPrefix + (kink + ("'" + trailer));
    Halves(m, GitPrefix, kink + ("'" + trailer));
    Halves(rest, kink, "'" + trailer);
    DropDrop(rest, |kink|, 1);
    IndexOfShift(kink, "'" + trailer, '\'');
  }

  /** An empty quoted name is not a git merge subject. */
  lemma GitNeedsName(trailer: string)
    ensures ParseGit(GitPrefix + "'" + trailer).None?
  {
    var m := GitPrefix + "'" + trailer;
    assert m[|GitPrefix|..][0] == '\'';
    IndexOfUnique(m[|GitPrefix|..], '\'', 0);
  }

  /** "Merged in " and "Merge branch '" part at their sixth character. */
  lemma MergedIsNotGit(m: string)
    requires StartsWith(m, MergedPrefix)
    ensures !StartsWith(m, GitPrefix)
  {
    assert m[5] == MergedPrefix[5] == 'd';
    assert GitPrefix[5] == ' ';
  }

  /** A word without spaces after a head, followed by a separator that starts
      with a space: the first space of the remainder ends the word. */
  lemma WordCut(m: string, head: string, word: string, sep: string, after: string)
    requires ' ' !in word && |sep| > 0 && sep[0] == ' '
    requires m == head + word + sep + after
    ensures StartsWith(m, head)
    ensures var rest := m[|head|..];
      IndexOf(rest, ' ') == |word| && rest[..|word|] == word && rest[|word|..] == sep + after
  {
    var rest := m[|head|..];
    assert m == head + (word + (sep + after));
    Halves(m, head, word + (sep + after));
    Halves(rest, word, sep + after);
    IndexOfShift(word, sep + after, ' ');
  }

  /** Locates the first space of a "Merged in" subject built from its pieces. */
  lemma MergedInCut(m: string, kink: string, trailer: string)
    requires ' ' !in kink && m == MergedInPrefix + kink + " " + trailer
    ensures StartsWith(m, MergedPrefix) && StartsWith(m, MergedInPrefix)
    ensures var rest := m[|MergedInPrefix|..];
      IndexOf(rest, ' ') == |kink| && rest[..|kink|] == kink
  {
    WordCut(m, MergedInPrefix, kink, " ", trailer);
    assert m[..|MergedPrefix|] == MergedInPrefix[..|MergedPrefix|];
  }

  /** Round trip for "Merged in": the name is everything up to the first space. */
  lemma MergedInRoundTrip(kink: string, trailer: string)
    requires |kink| > 0 && ' ' !in kink
    ensures MergedInDefined(MergedInPrefix + kink + " " + trailer)
    ensures ParseMergeCommit(MergedInPrefix + kink + " " + trailer) ==
            Some(MergeNames(None, kink))
  {
    var m := MergedInPrefix + kink + " " + trailer;
    MergedInCut(m, kink, trailer);
    MergedIsNotGit(m);
  }

  /** Locates the pieces of a "Merged A into B" subject built from them. */
  lemma MergedIntoCut(m: string, kink: string, main: string, trailer: string)
    requires ' ' !in kink && m == MergedPrefix + kink + Into + main + trailer
    ensures StartsWith(m, MergedPrefix)
    ensures var rest := m[|MergedPrefix|..];
      IndexOf(rest, ' ') == |kink| && rest[..|kink|] == kink &&
      StartsWith(rest[|kink|..], Into) && rest[|kink| + |Into|..] == main + trailer
  {
    assert m == MergedPrefix + kink + Into + (main + trailer);
    WordCut(m, MergedPrefix, kink, Into, main + trailer);
  }

  /** A "Merged" subject whose first word is not "in" is not a "Merged in" one. */
  lemma NotMergedIn(m: string, kink: string)
    requires StartsWith(m, MergedPrefix) && kink != "in"
    requires var rest := m[|MergedPrefix|..];
      IndexOf(rest, ' ') == |kink| && rest[..|kink|] == kink
    ensures !StartsWith(m, MergedInPrefix)
  {
    if StartsWith(m, MergedInPrefix) {
      MergedInWord(m);
    }
  }

  /** The first word after "Merged " of a "Merged in" subject is "in". */
  lemma MergedInWord(m: string)
    requires StartsWith(m, MergedInPrefix)
    ensures var rest := m[|MergedPrefix|..];
      IndexOf(rest, ' ') == 2 && rest[..2] == "in"
  {
    var rest := m[|MergedPrefix|..];
    assert rest[..3] == MergedInPrefix[|MergedPrefix|..] == "in ";
    assert rest[..2] == "in";
    IndexOfUnique(rest, ' ', 2);
  }

  /** Round trip for "Merged A into B": B ends at the first space after it.
      A == "in" is excluded, since "Merged in" is tried first. */
  lemma MergedIntoRoundTrip(kink: string, main: string, trailer: string)
    requires |kink| > 0 && ' ' !in kink && kink != "in"
    requires |main| > 0 && ' ' !in main
    requires trailer == [] || trailer[0] == ' '
    requires trailer != [] || '(' !in main
    ensures MergedInDefined(MergedPrefix + kink + Into + main + trailer)
    ensures ParseMergeCommit(MergedPrefix + kink + Into + main + trailer) ==
            Some(MergeNames(Some(main), kink))
  {
    var m := MergedPrefix + kink + Into + main + trailer;
    MergedIntoCut(m, kink, main, trailer);
    MainEndsAtSpace(main, trailer);
    MergedIsNotGit(m);
    NotMergedIn(m, kink);
  }

  /** A main name without spaces, followed by nothing or by a space, is cut
      exactly; '(' only ends it when nothing follows. */
  lemma MainEndsAtSpace(main: string, trailer: string)
    requires |main| > 0 && ' ' !in main
    requires trailer == [] || trailer[0] == ' '
    requires trailer != [] || '(' !in main
    ensures var tail := main + trailer;
      var space2 := IndexOf(tail, ' ');
      var paren := IndexOf(tail, '(');
      var len := if space2 > 0 then space2 else if paren > 0 then paren else |tail|;
      tail[..len] == main
  {
    var tail := main + trailer;
    if trailer == [] {
      assert tail == main;
    } else {
      IndexOfShift(main, trailer, ' ');
      assert IndexOf(trailer, ' ') == 0;
    }
  }

  /** The order between the two Bitbucket grammars matters: a subject
      "Merged in into B" is accepted by both, and "Merged in" wins. */
  lemma MergedInComesFirst(main: string)
    requires |main| > 0 && ' ' !in main && '(' !in main
    ensures MergedInDefined(MergedPrefix + "in" + Into + main)
    ensures ParseMergedInto(MergedPrefix + "in" + Into + main) == Some(MergeNames(Some(main), "in"))
    ensures ParseMergeCommit(MergedPrefix + "in" + Into + main) == Some(MergeNames(None, "into"))
  {
    var m := MergedPrefix + "in" + Into + main;
    assert MergedPrefix + "in" + Into == MergedInPrefix + "into" + " ";
    assert m == MergedInPrefix + "into" + " " + main;
    MergedInRoundTrip("into", main);
    assert m == MergedPrefix + "in" + Into + main + "";
    MergedIntoCut(m, "in", main, "");
    MainEndsAtSpace(main, "");
  }
}
