/** The commit-log tokenizer of `ggit_graph_load_repository` (ggit-graph.c) and
    the resolution of parent hash prefixes to commit indices.

    The log is a text of lines `HASH|PARENT_0 PARENT_1|SUBJECT`, each ended by
    '\n' or '\0'. The tokenizer walks it one character at a time, recording
    the start and end of up to four fields in a fixed buffer `parts[8]`; at a
    terminator it cuts a record out of the buffer. The buffer is never reset
    between lines, so a line with fewer than two '|' keeps the fields of the
    line before it: `LineRecord(line, stale)` states that outright. */
module LogParser {
  import opened Text

  /** The four fields cut out of one log line. */
  datatype Record = Record(hash: string, p0: string, p1: string, msg: string)

  /** Indices of the first and second parent; -1 when absent or unresolved. */
  datatype Parents = Parents(first: int, second: int)

  /** What the buffer denotes before the first line is cut. `parts` is
      uninitialised in the C code; the model reads it as all zeros, i.e. four
      empty fields. */
  const Blank := Record("", "", "", "")

  predicate IsTerminator(c: char) { c == '\n' || c == '\0' }

  // ---------------------------------------------------------------------------
  // Reference definition
  // ---------------------------------------------------------------------------

  /** Where the line being read starts: just past the last terminator of `s`, or 0. */
  function LineStart(s: string): (r: nat)
    ensures r <= |s|
    ensures forall j :: r <= j < |s| ==> !IsTerminator(s[j])
    ensures r > 0 ==> IsTerminator(s[r - 1])
  {
    if s == [] then 0
    else if IsTerminator(s[|s| - 1]) then |s|
    else LineStart(s[..|s| - 1])
  }

  /** The record a terminated line (terminator excluded) yields, given the
      record of the line before (`stale`). The hash runs to the first '|'.
      After it, a space before the second '|' separates two parents; a
      second '|' ends the parents and starts the subject. Fields the line
      does not reach keep their stale value. */
  function LineRecord(line: string, stale: Record): Record
  {
    var a := IndexFrom(line, '|', 0);
    if a < 0 then stale.(hash := line)
    else
      var b := IndexFrom(line, '|', a + 1);
      var sp := IndexFrom(line, ' ', a + 1);
      if b < 0 then
        if sp < 0 then stale.(hash := line[..a], p0 := line[a + 1..])
        else stale.(hash := line[..a], p0 := line[a + 1..sp], p1 := line[sp + 1..])
      else if 0 <= sp < b then Record(line[..a], line[a + 1..sp], line[sp + 1..b], line[b + 1..])
      else Record(line[..a], line[a + 1..b], "", line[b + 1..])
  }

  /** The record the buffer still holds: the last one cut, or the initial one. */
  function Stale(rs: seq<Record>): Record {
    if rs == [] then Blank else rs[|rs| - 1]
  }

  /** The records of the terminated lines of `s`, in order. */
  function ParseLogTo(s: string): seq<Record>
  {
    if s == [] then []
    else
      var init := s[..|s| - 1];
      var done := ParseLogTo(init);
      if IsTerminator(s[|s| - 1]) then done + [LineRecord(init[LineStart(init)..], Stale(done))]
      else done
  }

  /** What the tokenizer relies on: no terminated line has more than two
      '|' and no line more than three (a fourth field pair would be written
      past `parts[7]`), and the first terminated line has exactly two, so
      that every field of the buffer is written before it is first read. */
  predicate WellFormedLog(log: string) {
    forall i | 0 <= i < |log| :: SeparatorOk(log, i)
  }

  /** The condition `WellFormedLog` puts on the character at `i`, given the
      part of its line before it. */
  predicate SeparatorOk(log: string, i: int)
    requires 0 <= i < |log|
  {
    var cur := log[LineStart(log[..i])..i];
    (log[i] == '|' ==> Count(cur, '|') < 3) &&
    (IsTerminator(log[i]) ==> Count(cur, '|') <= 2) &&
    (IsTerminator(log[i]) && LineStart(log[..i]) == 0 ==> Count(cur, '|') == 2)
  }

  // ---------------------------------------------------------------------------
  // Properties of the reference definition
  // ---------------------------------------------------------------------------

  /** Each '\n'- or '\0'-terminated line yields exactly one record. */
  lemma {:induction false} RecordPerLine(s: string)
    ensures |ParseLogTo(s)| == Count(s, '\n') + Count(s, '\0')
  {
    if s != [] {
      RecordPerLine(s[..|s| - 1]);
    }
  }

  /** A line with two '|' determines its record alone: the hash is the text
      before the first '|' and the subject the text after the second. */
  lemma LineFields(line: string, stale: Record, stale2: Record)
    requires IndexFrom(line, '|', 0) >= 0 && IndexFrom(line, '|', IndexFrom(line, '|', 0) + 1) >= 0
    ensures LineRecord(line, stale) == LineRecord(line, stale2)
    ensures var a := IndexFrom(line, '|', 0);
            var b := IndexFrom(line, '|', a + 1);
            LineRecord(line, stale).hash == line[..a] &&
            LineRecord(line, stale).msg == line[b + 1..] &&
            '|' !in LineRecord(line, stale).hash
  {
    var a := IndexFrom(line, '|', 0);
    assert '|' !in line[..a] by {
      forall j | 0 <= j < a ensures line[..a][j] != '|' { }
    }
  }

  /** The line the log format prescribes for a record. */
  function FormatLine(r: Record): string {
    r.hash + "|" + r.p0 + (if r.p1 == [] then "" else " " + r.p1) + "|" + r.msg
  }

  /** A record whose fields hold no separator fits the log format. */
  predicate Formattable(r: Record) {
    '|' !in r.hash && '|' !in r.p0 && '|' !in r.p1 && '|' !in r.msg && ' ' !in r.p0
  }

  /** Formatting then tokenizing a line gives the record back. */
  lemma LineRoundTrip(r: Record, stale: Record)
    requires Formattable(r)
    ensures LineRecord(FormatLine(r), stale) == r
  {
    if r.p1 == [] {
      OneParentRoundTrip(r, stale);
    } else {
      TwoParentsRoundTrip(r, stale);
    }
  }

  lemma OneParentRoundTrip(r: Record, stale: Record)
    requires Formattable(r) && r.p1 == []
    ensures LineRecord(FormatLine(r), stale) == r
  {
    var line := FormatLine(r);
    var a := |r.hash|;
    var b := a + 1 + |r.p0|;
    assert line == r.hash + "|" + r.p0 + "|" + r.msg;
    assert line[..a] == r.hash;
    assert line[a + 1..b] == r.p0;
    assert line[b + 1..] == r.msg;
    IndexFromIs(line, '|', 0, a);
    IndexFromIs(line, '|', a + 1, b);
  }

  lemma TwoParentsRoundTrip(r: Record, stale: Record)
    requires Formattable(r) && r.p1 != []
    ensures LineRecord(FormatLine(r), stale) == r
  {
    var line := FormatLine(r);
    var a := |r.hash|;
    var sp := a + 1 + |r.p0|;
    var b := sp + 1 + |r.p1|;
    TwoParentsSeparators(r);
    TwoParentsFields(r);
    LineRecordSpaced(line, stale, a, b, sp);
    assert Record(line[..a], line[a + 1..sp], line[sp + 1..b], line[b + 1..]) == Record(r.hash, r.p0, r.p1, r.msg);
  }

  /** The fields of a two-parent line lie between its separators. */
  lemma TwoParentsFields(r: Record)
    requires r.p1 != []
    ensures var line := FormatLine(r);
            var a := |r.hash|;
            var sp := a + 1 + |r.p0|;
            var b := sp + 1 + |r.p1|;
            b < |line| &&
            line[..a] == r.hash && line[a + 1..sp] == r.p0 && line[sp + 1..b] == r.p1 && line[b + 1..] == r.msg
  {
    var u := r.hash + "|";
    var I := u + r.p0;
    var K := I + (" " + r.p1);
    var L := K + "|";
    var a, sp := |r.hash|, |I|;
    var b := |K|;
    assert FormatLine(r) == L + r.msg;
    SliceLeft(L, r.msg, 0, a);
    SliceLeft(K, "|", 0, a);
    SliceLeft(I, " " + r.p1, 0, a);
    SliceLeft(r.hash, "|", 0, a);
    assert u[..a] == r.hash;
    SliceLeft(L, r.msg, a + 1, sp);
    SliceLeft(K, "|", a + 1, sp);
    SliceLeft(I, " " + r.p1, a + 1, sp);
    assert I[a + 1..sp] == r.p0;
    SliceLeft(L, r.msg, sp + 1, b);
    SliceLeft(K, "|", sp + 1, b);
    assert K[sp + 1..b] == r.p1;
  }

  /** Where the separators of a two-parent line are. */
  lemma TwoParentsSeparators(r: Record)
    requires Formattable(r) && r.p1 != []
    ensures var line := FormatLine(r);
            var a := |r.hash|;
            var sp := a + 1 + |r.p0|;
            var b := sp + 1 + |r.p1|;
            b < |line| && IndexFrom(line, '|', 0) == a && IndexFrom(line, '|', a + 1) == b && IndexFrom(line, ' ', a + 1) == sp
  {
    var line := FormatLine(r);
    var a := |r.hash|;
    var sp := a + 1 + |r.p0|;
    var b := sp + 1 + |r.p1|;
    assert line == r.hash + "|" + r.p0 + " " + r.p1 + "|" + r.msg;
    IndexFromIs(line, '|', 0, a);
    IndexFromIs(line, '|', a + 1, b);
    IndexFromIs(line, ' ', a + 1, sp);
  }

  /** `LineRecord` of a line with two '|' and a space between them. */
  lemma LineRecordSpaced(line: string, stale: Record, a: int, b: int, sp: int)
    requires a == IndexFrom(line, '|', 0) && a >= 0
    requires b == IndexFrom(line, '|', a + 1) && b >= 0 && sp == IndexFrom(line, ' ', a + 1)
    requires 0 <= sp < b
    ensures LineRecord(line, stale) == Record(line[..a], line[a + 1..sp], line[sp + 1..b], line[b + 1..])
  {
  }

  // ---------------------------------------------------------------------------
  // The tokenizer's state in the middle of a line, in closed form
  // ---------------------------------------------------------------------------

  /** Positions in the current line of the first '|' (`a`), the second
      '|' (`b`), the first space after `a` (`sp`) and the third '|' (`c`);
      -1 for each one not (yet) present. */
  datatype Shape = Shape(a: int, b: int, sp: int, c: int)

  predicate ShapeOk(sh: Shape, len: int) {
    -1 <= sh.a < len &&
    (sh.a < 0 ==> sh.b == -1 && sh.sp == -1 && sh.c == -1) &&
    (sh.b == -1 || sh.a < sh.b < len) &&
    (sh.sp == -1 || sh.a < sh.sp < len) &&
    (sh.c == -1 || (0 <= sh.b < sh.c < len))
  }

  function ShapeOf(cur: string): (sh: Shape)
    ensures ShapeOk(sh, |cur|)
  {
    var a := IndexFrom(cur, '|', 0);
    if a < 0 then Shape(-1, -1, -1, -1)
    else
      var b := IndexFrom(cur, '|', a + 1);
      Shape(a, b, IndexFrom(cur, ' ', a + 1), if b < 0 then -1 else IndexFrom(cur, '|', b + 1))
  }

  /** `n`: how many field pairs of `parts` the current line has written. */
  function Written(sh: Shape): nat {
    if sh.a < 0 then 0
    else if sh.b < 0 then (if sh.sp < 0 then 1 else 2)
    else if sh.c < 0 then 3
    else 4
  }

  /** `last_pipe`, relative to the start of the line: the separator that
      ends the last field written, or -1. */
  function Cut(sh: Shape): int {
    if sh.a < 0 then -1
    else if sh.b < 0 then (if sh.sp < 0 then sh.a else sh.sp)
    else if sh.c < 0 then sh.b
    else sh.c
  }

  /** The record the buffer denotes while `cur` is being read. */
  function Pending(cur: string, sh: Shape, stale: Record): Record
    requires ShapeOk(sh, |cur|)
  {
    if sh.a < 0 then stale
    else if sh.b < 0 then
      if sh.sp < 0 then stale.(hash := cur[..sh.a])
      else stale.(hash := cur[..sh.a], p0 := cur[sh.a + 1..sh.sp])
    else
      var two := if 0 <= sh.sp < sh.b then stale.(hash := cur[..sh.a], p0 := cur[sh.a + 1..sh.sp], p1 := cur[sh.sp + 1..sh.b])
                 else stale.(hash := cur[..sh.a], p0 := cur[sh.a + 1..sh.b], p1 := "");
      if sh.c < 0 then two else two.(msg := cur[sh.b + 1..sh.c])
  }

  /** Field `k` of a record, in buffer order. */
  function SetField(r: Record, k: nat, t: string): Record
    requires k < 4
  {
    if k == 0 then r.(hash := t)
    else if k == 1 then r.(p0 := t)
    else if k == 2 then r.(p1 := t)
    else r.(msg := t)
  }

  /** Four pairs are written only once the line holds three '|'. */
  lemma WrittenBound(cur: string, sh: Shape)
    requires ShapeOk(sh, |cur|) && Written(sh) == 4
    requires cur[sh.a] == '|' && cur[sh.b] == '|' && cur[sh.c] == '|'
    ensures Count(cur, '|') >= 3
  {
    CountThree(cur, '|', sh.a, sh.b, sh.c);
  }

  /** The separators `ShapeOf` finds are '|' characters. */
  lemma ShapePipes(cur: string)
    ensures var sh := ShapeOf(cur);
            (sh.a >= 0 ==> cur[sh.a] == '|') && (sh.b >= 0 ==> cur[sh.b] == '|') && (sh.c >= 0 ==> cur[sh.c] == '|')
  {
  }

  /** How the positions move when `x` is appended to a line of length `L`. */
  function NextShape(sh: Shape, x: char, L: int): (r: Shape)
    requires ShapeOk(sh, L)
    ensures ShapeOk(r, L + 1)
  {
    if sh.a < 0 then (if x == '|' then Shape(L, -1, -1, -1) else sh)
    else
      var sp := if sh.sp >= 0 then sh.sp else if x == ' ' then L else -1;
      if sh.b < 0 then Shape(sh.a, if x == '|' then L else -1, sp, -1)
      else Shape(sh.a, sh.b, sp, if sh.c >= 0 then sh.c else if x == '|' then L else -1)
  }

  lemma ShapeStep(cur: string, x: char)
    ensures ShapeOf(cur + [x]) == NextShape(ShapeOf(cur), x, |cur|)
  {
    IndexFromAppend(cur, x, '|', 0);
    var sh := ShapeOf(cur);
    if sh.a >= 0 {
      if sh.b < 0 {
        ShapeStepInParents(cur, x);
      } else {
        ShapeStepAfterParents(cur, x);
      }
    }
  }

  lemma ShapeStepInParents(cur: string, x: char)
    requires ShapeOf(cur).a >= 0 && ShapeOf(cur).b < 0
    ensures ShapeOf(cur + [x]) == NextShape(ShapeOf(cur), x, |cur|)
  {
    var sh := ShapeOf(cur);
    var t := cur + [x];
    assert IndexFrom(t, '|', 0) == sh.a by { IndexFromAppend(cur, x, '|', 0); }
    assert IndexFrom(t, '|', sh.a + 1) == (if x == '|' then |cur| else -1) by {
      IndexFromAppend(cur, x, '|', sh.a + 1);
    }
    assert IndexFrom(t, ' ', sh.a + 1) == (if sh.sp >= 0 then sh.sp else if x == ' ' then |cur| else -1) by {
      IndexFromAppend(cur, x, ' ', sh.a + 1);
    }
  }

  lemma ShapeStepAfterParents(cur: string, x: char)
    requires ShapeOf(cur).b >= 0
    ensures ShapeOf(cur + [x]) == NextShape(ShapeOf(cur), x, |cur|)
  {
    var sh := ShapeOf(cur);
    AppendAfterParents(cur, x, sh.a, sh.b, sh.sp, sh.c);
  }

  /** Appending to a line whose first two separators are known. */
  lemma AppendAfterParents(cur: string, x: char, a: int, b: int, sp: int, c: int)
    requires 0 <= a < b < |cur|
    requires IndexFrom(cur, '|', 0) == a && IndexFrom(cur, '|', a + 1) == b
    requires IndexFrom(cur, ' ', a + 1) == sp && IndexFrom(cur, '|', b + 1) == c
    ensures ShapeOf(cur + [x]) ==
      Shape(a, b, if sp >= 0 then sp else if x == ' ' then |cur| else -1, if c >= 0 then c else if x == '|' then |cur| else -1)
  {
    var sp' := if sp >= 0 then sp else if x == ' ' then |cur| else -1;
    var c' := if c >= 0 then c else if x == '|' then |cur| else -1;
    AppendKeeps(cur, x, '|', 0, a);
    AppendKeeps(cur, x, '|', a + 1, b);
    AppendFinds(cur, x, ' ', a + 1, sp);
    AppendFinds(cur, x, '|', b + 1, c);
    ShapeAfterParents(cur + [x], a, b, sp', c');
  }

  /** A separator already found stays the first one after appending. */
  lemma AppendKeeps(cur: string, x: char, ch: char, from: nat, k: int)
    requires from <= k < |cur| && IndexFrom(cur, ch, from) == k
    ensures IndexFrom(cur + [x], ch, from) == k
  {
    IndexFromAppend(cur, x, ch, from);
  }

  /** The first separator after `from` once `x` is appended. */
  lemma AppendFinds(cur: string, x: char, ch: char, from: nat, k: int)
    requires from <= |cur| && IndexFrom(cur, ch, from) == k
    ensures IndexFrom(cur + [x], ch, from) == if k >= 0 then k else if x == ch then |cur| else -1
  {
    IndexFromAppend(cur, x, ch, from);
  }

  /** The shape of a line whose first two separators are known. */
  lemma ShapeAfterParents(t: string, a: int, b: int, sp: int, c: int)
    requires 0 <= a < b < |t|
    requires IndexFrom(t, '|', 0) == a && IndexFrom(t, '|', a + 1) == b
    requires IndexFrom(t, ' ', a + 1) == sp && IndexFrom(t, '|', b + 1) == c
    ensures ShapeOf(t) == Shape(a, b, sp, c)
  {
  }

  /** A character the tokenizer ignores leaves `n`, `last_pipe` and the
      buffer's record alone. */
  lemma OtherStep(cur: string, x: char, sh: Shape, stale: Record)
    requires ShapeOk(sh, |cur|)
    requires x != '|' && (x == ' ' ==> Written(sh) != 1)
    ensures Written(NextShape(sh, x, |cur|)) == Written(sh)
    ensures Cut(NextShape(sh, x, |cur|)) == Cut(sh)
    ensures Pending(cur + [x], NextShape(sh, x, |cur|), stale) == Pending(cur, sh, stale)
  {
    if sh.a >= 0 {
      if sh.b < 0 {
        OtherInParents(cur, x, sh, stale);
      } else {
        OtherAfterParents(cur, x, sh, stale);
      }
    }
  }

  lemma OtherInParents(cur: string, x: char, sh: Shape, stale: Record)
    requires ShapeOk(sh, |cur|) && sh.a >= 0 && sh.b < 0
    requires x != '|' && (x == ' ' ==> sh.sp >= 0)
    ensures Pending(cur + [x], NextShape(sh, x, |cur|), stale) == Pending(cur, sh, stale)
  {
    var t := cur + [x];
    assert t[..sh.a] == cur[..sh.a];
    if sh.sp >= 0 {
      assert t[sh.a + 1..sh.sp] == cur[sh.a + 1..sh.sp];
    }
  }

  lemma OtherAfterParents(cur: string, x: char, sh: Shape, stale: Record)
    requires ShapeOk(sh, |cur|) && sh.a >= 0 && sh.b >= 0 && x != '|'
    ensures Pending(cur + [x], NextShape(sh, x, |cur|), stale) == Pending(cur, sh, stale)
  {
    var t := cur + [x];
    var sh2 := NextShape(sh, x, |cur|);
    assert sh2.a == sh.a && sh2.b == sh.b && sh2.c == sh.c;
    assert 0 <= sh2.sp < sh2.b <==> 0 <= sh.sp < sh.b;
    assert t[..sh.a] == cur[..sh.a];
    assert t[sh.a + 1..sh.b] == cur[sh.a + 1..sh.b];
    if 0 <= sh.sp < sh.b {
      assert sh2.sp == sh.sp;
      assert t[sh.a + 1..sh.sp] == cur[sh.a + 1..sh.sp];
      assert t[sh.sp + 1..sh.b] == cur[sh.sp + 1..sh.b];
    }
    if sh.c >= 0 {
      assert t[sh.b + 1..sh.c] == cur[sh.b + 1..sh.c];
    }
  }

  /** A space right after the first '|' ends the first parent. */
  lemma SpaceStep(cur: string, sh: Shape, stale: Record)
    requires ShapeOk(sh, |cur|) && Written(sh) == 1
    ensures Written(NextShape(sh, ' ', |cur|)) == 2
    ensures Cut(NextShape(sh, ' ', |cur|)) == |cur|
    ensures Pending(cur + [' '], NextShape(sh, ' ', |cur|), stale) ==
            SetField(Pending(cur, sh, stale), 1, cur[Cut(sh) + 1..])
  {
    var t := cur + [' '];
    assert t[..sh.a] == cur[..sh.a];
    assert t[sh.a + 1..|cur|] == cur[sh.a + 1..];
  }

  /** A '|' ends the field being read (and, right after the first parent,
      an absent second parent as well). */
  lemma PipeStep(cur: string, sh: Shape, stale: Record)
    requires ShapeOk(sh, |cur|) && Written(sh) <= 3
    ensures var n := Written(sh);
            Written(NextShape(sh, '|', |cur|)) == (if n == 1 then 3 else n + 1) &&
            Cut(NextShape(sh, '|', |cur|)) == |cur| &&
            Pending(cur + ['|'], NextShape(sh, '|', |cur|), stale) ==
              (var r := SetField(Pending(cur, sh, stale), n, cur[Cut(sh) + 1..]);
               if n == 1 then SetField(r, 2, "") else r)
  {
    if sh.a < 0 {
      PipeInHash(cur, sh, stale);
    } else if sh.b < 0 {
      PipeAfterHash(cur, sh, stale);
    } else {
      PipeAfterParents(cur, sh, stale);
    }
  }

  lemma PipeInHash(cur: string, sh: Shape, stale: Record)
    requires ShapeOk(sh, |cur|) && sh.a < 0
    ensures Pending(cur + ['|'], NextShape(sh, '|', |cur|), stale) ==
              SetField(Pending(cur, sh, stale), Written(sh), cur[Cut(sh) + 1..])
  {
    assert (cur + ['|'])[..|cur|] == cur;
  }

  lemma PipeAfterHash(cur: string, sh: Shape, stale: Record)
    requires ShapeOk(sh, |cur|) && sh.a >= 0 && sh.b < 0
    ensures Pending(cur + ['|'], NextShape(sh, '|', |cur|), stale) ==
              (var r := SetField(Pending(cur, sh, stale), Written(sh), cur[Cut(sh) + 1..]);
               if Written(sh) == 1 then SetField(r, 2, "") else r)
  {
    var t := cur + ['|'];
    assert t[..sh.a] == cur[..sh.a];
    if sh.sp >= 0 {
      assert t[sh.a + 1..sh.sp] == cur[sh.a + 1..sh.sp];
      assert t[sh.sp + 1..|cur|] == cur[sh.sp + 1..];
    } else {
      assert t[sh.a + 1..|cur|] == cur[sh.a + 1..];
    }
  }

  lemma PipeAfterParents(cur: string, sh: Shape, stale: Record)
    requires ShapeOk(sh, |cur|) && sh.b >= 0 && sh.c < 0
    ensures Pending(cur + ['|'], NextShape(sh, '|', |cur|), stale) ==
              SetField(Pending(cur, sh, stale), 3, cur[sh.b + 1..])
  {
    var t := cur + ['|'];
    assert t[..sh.a] == cur[..sh.a];
    assert t[sh.a + 1..sh.b] == cur[sh.a + 1..sh.b];
    if 0 <= sh.sp < sh.b {
      assert t[sh.a + 1..sh.sp] == cur[sh.a + 1..sh.sp];
      assert t[sh.sp + 1..sh.b] == cur[sh.sp + 1..sh.b];
    }
    assert t[sh.b + 1..|cur|] == cur[sh.b + 1..];
  }

  /** At a terminator the buffer's last write completes exactly `LineRecord`. */
  lemma TerminatorStep(cur: string, stale: Record, sh: Shape)
    requires sh == ShapeOf(cur) && Written(sh) <= 3
    ensures SetField(Pending(cur, sh, stale), Written(sh), cur[Cut(sh) + 1..]) == LineRecord(cur, stale)
  {
    if sh.a < 0 {
      TerminatorInHash(cur, stale, sh);
    } else if sh.b < 0 {
      TerminatorInParents(cur, stale, sh);
    } else {
      TerminatorAfterParents(cur, stale, sh);
    }
  }

  lemma TerminatorInHash(cur: string, stale: Record, sh: Shape)
    requires sh == ShapeOf(cur) && sh.a < 0
    ensures SetField(Pending(cur, sh, stale), Written(sh), cur[Cut(sh) + 1..]) == LineRecord(cur, stale)
  {
  }

  lemma TerminatorInParents(cur: string, stale: Record, sh: Shape)
    requires sh == ShapeOf(cur) && sh.a >= 0 && sh.b < 0
    ensures SetField(Pending(cur, sh, stale), Written(sh), cur[Cut(sh) + 1..]) == LineRecord(cur, stale)
  {
    if sh.sp < 0 {
      TerminatorOneParent(cur, stale, sh);
    } else {
      TerminatorTwoParents(cur, stale, sh);
    }
  }

  /** One parent and no subject: the terminator ends the first parent. */
  lemma TerminatorOneParent(cur: string, stale: Record, sh: Shape)
    requires sh == ShapeOf(cur) && sh.a >= 0 && sh.b < 0 && sh.sp < 0
    ensures SetField(Pending(cur, sh, stale), Written(sh), cur[Cut(sh) + 1..]) == LineRecord(cur, stale)
  {
  }

  /** Two parents and no subject: the terminator ends the second parent. */
  lemma TerminatorTwoParents(cur: string, stale: Record, sh: Shape)
    requires sh == ShapeOf(cur) && sh.a >= 0 && sh.b < 0 && sh.sp >= 0
    ensures SetField(Pending(cur, sh, stale), Written(sh), cur[Cut(sh) + 1..]) == LineRecord(cur, stale)
  {
  }

  lemma TerminatorAfterParents(cur: string, stale: Record, sh: Shape)
    requires sh == ShapeOf(cur) && sh.b >= 0 && sh.c < 0
    ensures SetField(Pending(cur, sh, stale), Written(sh), cur[Cut(sh) + 1..]) == LineRecord(cur, stale)
  {
    if 0 <= sh.sp < sh.b {
      TerminatorSpaced(cur, stale, sh);
    } else {
      TerminatorUnspaced(cur, stale, sh);
    }
  }

  /** A subject after two parents: the terminator ends the subject. */
  lemma TerminatorSpaced(cur: string, stale: Record, sh: Shape)
    requires sh == ShapeOf(cur) && sh.b >= 0 && sh.c < 0 && 0 <= sh.sp < sh.b
    ensures SetField(Pending(cur, sh, stale), Written(sh), cur[Cut(sh) + 1..]) == LineRecord(cur, stale)
  {
  }

  /** A subject after one parent: the second parent is left empty. */
  lemma TerminatorUnspaced(cur: string, stale: Record, sh: Shape)
    requires sh == ShapeOf(cur) && sh.b >= 0 && sh.c < 0 && !(0 <= sh.sp < sh.b)
    ensures SetField(Pending(cur, sh, stale), Written(sh), cur[Cut(sh) + 1..]) == LineRecord(cur, stale)
  {
  }

  // ---------------------------------------------------------------------------
  // Parent resolution
  // ---------------------------------------------------------------------------

  /** The highest index `q` in `[lo, |hs|)`, other than `except`, whose hash
      starts with the non-empty prefix `f`; -1 when there is none. */
  function TopIn(hs: seq<string>, f: string, except: int, lo: nat): (r: int)
    requires lo <= |hs|
    ensures r == -1 || (lo <= r < |hs| && r != except && |f| > 0 && StartsWith(hs[r], f))
    ensures r >= 0 ==> forall q :: r < q < |hs| && q != except ==> !StartsWith(hs[q], f)
    ensures r == -1 && |f| > 0 ==> forall q :: lo <= q < |hs| && q != except ==> !StartsWith(hs[q], f)
    decreases |hs| - lo
  {
    if lo == |hs| then -1
    else
      var above := TopIn(hs, f, except, lo + 1);
      if above >= 0 then above
      else if lo != except && |f| > 0 && StartsWith(hs[lo], f) then lo
      else -1
  }

  /** Once a match is found, scanning further down does not change it. */
  lemma {:induction false} TopInFound(hs: seq<string>, f: string, except: int, lo: nat, lo2: nat)
    requires lo <= lo2 <= |hs| && TopIn(hs, f, except, lo2) >= 0
    ensures TopIn(hs, f, except, lo) == TopIn(hs, f, except, lo2)
    decreases lo2 - lo
  {
    if lo < lo2 {
      TopInFound(hs, f, except, lo + 1, lo2);
    }
  }

  /** An excluded index below the scanned range excludes nothing. */
  lemma {:induction false} TopInExceptBelow(hs: seq<string>, f: string, except: int, lo: nat)
    requires lo <= |hs| && except < lo
    ensures TopIn(hs, f, except, lo) == TopIn(hs, f, -1, lo)
    decreases |hs| - lo
  {
    if lo < |hs| {
      TopInExceptBelow(hs, f, except, lo + 1);
    }
  }

  /** The parents of a commit whose parent fields are `p0` and `p1`, among
      the commits `hs` read before it: the most recent commit whose hash
      starts with `p0`, and the most recent other one whose hash starts with `p1`. */
  function Resolve(hs: seq<string>, p0: string, p1: string): (r: Parents)
    ensures -1 <= r.first < |hs| && -1 <= r.second < |hs|
    ensures r.first >= 0 ==> StartsWith(hs[r.first], p0)
    ensures r.second >= 0 ==> StartsWith(hs[r.second], p1) && r.second != r.first
    ensures p0 == [] ==> r.first == -1
    ensures p1 == [] ==> r.second == -1
  {
    var a := TopIn(hs, p0, -1, 0);
    Parents(a, TopIn(hs, p1, a, 0))
  }

  /** The backward scan over the hashes read so far. */
  method ResolveParents(hs: seq<string>, p0: string, p1: string) returns (par: Parents)
    ensures par == Resolve(hs, p0, p1)
  {
    var first, second := -1, -1;
    var p := |hs| - 1;
    while p >= 0
      invariant -1 <= p < |hs|
      invariant first == TopIn(hs, p0, -1, p + 1)
      invariant second == TopIn(hs, p1, first, p + 1)
      invariant first == -1 || first > p
    {
      var hash := hs[p];
      if first == -1 && |p0| > 0 && StartsWith(hash, p0) {
        TopInExceptBelow(hs, p1, p, p + 1);
        first := p;
        if |p1| == 0 || second != -1 {
          TopInFound(hs, p0, -1, 0, p);
          if second != -1 {
            TopInFound(hs, p1, p, 0, p + 1);
          }
          break;
        }
      } else if second == -1 && |p1| > 0 && StartsWith(hash, p1) {
        second := p;
        if |p0| == 0 || first != -1 {
          if first != -1 {
            TopInFound(hs, p0, -1, 0, p + 1);
          }
          TopInFound(hs, p1, first, 0, p);
          break;
        }
      }
      p := p - 1;
    }
    par := Parents(first, second);
  }

  /** The hashes of `rs`, in order. */
  function Hashes(rs: seq<Record>): (r: seq<string>)
    ensures |r| == |rs| && forall k :: 0 <= k < |rs| ==> r[k] == rs[k].hash
  {
    seq(|rs|, k requires 0 <= k < |rs| => rs[k].hash)
  }

  /** The parents of each record, each resolved among the records before it. */
  function ResolveAll(rs: seq<Record>): seq<Parents>
  {
    if rs == [] then []
    else
      var init := rs[..|rs| - 1];
      ResolveAll(init) + [Resolve(Hashes(init), rs[|rs| - 1].p0, rs[|rs| - 1].p1)]
  }

  /** Every resolved parent is an earlier commit, and a commit's two parents differ. */
  lemma {:induction false} ParentsPrecede(rs: seq<Record>)
    ensures |ResolveAll(rs)| == |rs|
    ensures forall k :: 0 <= k < |rs| ==>
      -1 <= ResolveAll(rs)[k].first < k && -1 <= ResolveAll(rs)[k].second < k &&
      (ResolveAll(rs)[k].second >= 0 ==> ResolveAll(rs)[k].second != ResolveAll(rs)[k].first)
  {
    if rs != [] {
      ParentsPrecede(rs[..|rs| - 1]);
    }
  }

  // ---------------------------------------------------------------------------
  // The tokenizer
  // ---------------------------------------------------------------------------

  /** The field bounds in a buffer are ordered and end by `i`. */
  predicate Spans(P: seq<int>, i: int) {
    |P| == 8 &&
    0 <= P[0] <= P[1] <= i && 0 <= P[2] <= P[3] <= i &&
    0 <= P[4] <= P[5] <= i && 0 <= P[6] <= P[7] <= i
  }

  /** The record a buffer of field bounds denotes. */
  function Denote(log: string, P: seq<int>): Record
    requires Spans(P, |log|)
  {
    Record(log[P[0]..P[1]], log[P[2]..P[3]], log[P[4]..P[5]], log[P[6]..P[7]])
  }

  /** Writing pair `k` of the buffer with bounds up to `j` sets field `k`
      of the record it denotes. */
  lemma DenoteWrite(log: string, P: seq<int>, j: int, k: nat, from: int, to: int)
    requires j <= |log| && Spans(P, j) && k < 4 && 0 <= from <= to <= j
    ensures Spans(P[2 * k := from][2 * k + 1 := to], j)
    ensures Denote(log, P[2 * k := from][2 * k + 1 := to]) == SetField(Denote(log, P), k, log[from..to])
  {
  }

  /** The tokenizer's state after reading `log[..i]`, whose current line
      starts at `ls` and has the separator positions `sh`: `n`, `last_pipe`
      and the buffer agree with the closed form of that line. */
  predicate Between(log: string, ls: int, i: int, sh: Shape, n: int, lastPipe: int, P: seq<int>, rs: seq<Record>)
    requires 0 <= ls <= i <= |log| && ShapeOk(sh, i - ls)
  {
    n == Written(sh) && lastPipe == ls + Cut(sh) &&
    Spans(P, i) && Denote(log, P) == Pending(log[ls..i], sh, Stale(rs))
  }

  /** How the line start and the records advance by one character. */
  lemma StepLine(log: string, i: int)
    requires 0 <= i < |log|
    ensures var ls := LineStart(log[..i]);
            log[ls..i + 1] == log[ls..i] + [log[i]] &&
            LineStart(log[..i + 1]) == (if IsTerminator(log[i]) then i + 1 else ls)
  {
    assert log[..i + 1][..i] == log[..i];
  }

  lemma StepRecords(log: string, i: int)
    requires 0 <= i < |log|
    ensures var ls := LineStart(log[..i]);
            ParseLogTo(log[..i + 1]) ==
              if IsTerminator(log[i]) then ParseLogTo(log[..i]) + [LineRecord(log[ls..i], Stale(ParseLogTo(log[..i])))]
              else ParseLogTo(log[..i])
  {
    assert log[..i + 1][..i] == log[..i];
    var ls := LineStart(log[..i]);
    assert log[..i][ls..] == log[ls..i];
  }

  /** Where the tokenizer writes a pair, a well-formed log keeps it inside `parts`. */
  lemma WrittenLimit(log: string, i: int)
    requires WellFormedLog(log) && 0 <= i < |log| && (log[i] == '|' || IsTerminator(log[i]))
    ensures Written(ShapeOf(log[LineStart(log[..i])..i])) <= 3
  {
    var cur := log[LineStart(log[..i])..i];
    assert SeparatorOk(log, i);
    if Written(ShapeOf(cur)) == 4 {
      ShapePipes(cur);
      WrittenBound(cur, ShapeOf(cur));
    }
  }

  /** The buffer after the writes of a '|'. */
  function PipeWrite(P: seq<int>, n: int, lastPipe: int, i: int): seq<int>
    requires |P| == 8 && 0 <= n <= 3
  {
    var P1 := P[2 * n := lastPipe + 1][2 * n + 1 := i];
    if n == 1 then P1[4 := i][5 := i] else P1
  }

  lemma PipeAdvance(log: string, ls: int, i: int, sh: Shape, n: int, lastPipe: int, P: seq<int>, rs: seq<Record>)
    requires 0 <= ls <= i < |log| && log[i] == '|' && ShapeOk(sh, i - ls) && Written(sh) <= 3
    requires Between(log, ls, i, sh, n, lastPipe, P, rs)
    ensures 0 <= n <= 3
    ensures Between(log, ls, i + 1, NextShape(sh, '|', i - ls), if n == 1 then 3 else n + 1, i, PipeWrite(P, n, lastPipe, i), rs)
  {
    var cur := log[ls..i];
    PipeBuffer(log, ls, i, sh, n, lastPipe, P, Pending(cur, sh, Stale(rs)));
    assert log[ls..i + 1] == cur + ['|'];
    PipeStep(cur, sh, Stale(rs));
  }

  /** The writes of a '|' store the field being read into the record
      `pend` the buffer denotes (and, right after the first parent, an
      empty second parent). */
  lemma PipeBuffer(log: string, ls: int, i: int, sh: Shape, n: int, lastPipe: int, P: seq<int>, pend: Record)
    requires 0 <= ls <= i < |log| && ShapeOk(sh, i - ls) && Written(sh) <= 3
    requires n == Written(sh) && lastPipe == ls + Cut(sh) && Spans(P, i) && Denote(log, P) == pend
    ensures 0 <= n <= 3
    ensures Spans(PipeWrite(P, n, lastPipe, i), i + 1)
    ensures Denote(log, PipeWrite(P, n, lastPipe, i)) ==
              (var r := SetField(pend, n, log[ls..i][Cut(sh) + 1..]);
               if n == 1 then SetField(r, 2, "") else r)
  {
    var tail := log[ls..i][Cut(sh) + 1..];
    SliceTail(log, ls, i, Cut(sh) + 1);
    if n == 1 {
      SecondParentWrite(log, i, P, lastPipe, pend, tail);
    } else {
      DenoteWrite(log, P, i + 1, n, lastPipe + 1, i);
    }
  }

  /** The writes of a '|' right after the first parent: it ends, and the
      second parent is empty. */
  lemma SecondParentWrite(log: string, i: int, P: seq<int>, lastPipe: int, pend: Record, tail: string)
    requires 0 <= lastPipe + 1 <= i < |log| && Spans(P, i) && Denote(log, P) == pend && log[lastPipe + 1..i] == tail
    ensures Spans(PipeWrite(P, 1, lastPipe, i), i + 1)
    ensures Denote(log, PipeWrite(P, 1, lastPipe, i)) == SetField(SetField(pend, 1, tail), 2, "")
  {
    var P1 := P[2 := lastPipe + 1][3 := i];
    DenoteWrite(log, P, i + 1, 1, lastPipe + 1, i);
    assert log[i..i] == "";
    DenoteWrite(log, P1, i + 1, 2, i, i);
  }

  lemma SpaceAdvance(log: string, ls: int, i: int, sh: Shape, n: int, lastPipe: int, P: seq<int>, rs: seq<Record>)
    requires 0 <= ls <= i < |log| && log[i] == ' ' && ShapeOk(sh, i - ls) && n == 1
    requires Between(log, ls, i, sh, n, lastPipe, P, rs)
    ensures Between(log, ls, i + 1, NextShape(sh, ' ', i - ls), 2, i, P[2 := lastPipe + 1][3 := i], rs)
  {
    var cur := log[ls..i];
    assert log[ls..i + 1] == cur + [' '];
    SpaceStep(cur, sh, Stale(rs));
    SliceTail(log, ls, i, Cut(sh) + 1);
    DenoteWrite(log, P, i + 1, 1, lastPipe + 1, i);
  }

  lemma OtherAdvance(log: string, ls: int, i: int, sh: Shape, n: int, lastPipe: int, P: seq<int>, rs: seq<Record>)
    requires 0 <= ls <= i < |log| && ShapeOk(sh, i - ls)
    requires log[i] != '|' && (log[i] == ' ' ==> n != 1)
    requires Between(log, ls, i, sh, n, lastPipe, P, rs)
    ensures Between(log, ls, i + 1, NextShape(sh, log[i], i - ls), n, lastPipe, P, rs)
  {
    var cur := log[ls..i];
    assert log[ls..i + 1] == cur + [log[i]];
    OtherStep(cur, log[i], sh, Stale(rs));
  }

  /** After a terminator the buffer denotes the record just cut. */
  lemma FreshLine(log: string, i: int, P: seq<int>, rs: seq<Record>, r: Record)
    requires 0 <= i < |log| && Spans(P, i + 1) && Denote(log, P) == r
    ensures Between(log, i + 1, i + 1, Shape(-1, -1, -1, -1), 0, i, P, rs + [r])
  {
    assert log[i + 1..i + 1] == [];
  }

  /** Appending a record appends its hash. */
  lemma HashesAppend(rs: seq<Record>, r: Record)
    ensures Hashes(rs + [r]) == Hashes(rs) + [r.hash]
  {
  }

  /** A new record's parents are resolved among the records before it. */
  lemma ResolveAllAppend(rs: seq<Record>, r: Record)
    ensures ResolveAll(rs + [r]) == ResolveAll(rs) + [Resolve(Hashes(rs), r.p0, r.p1)]
  {
    assert (rs + [r])[..|rs|] == rs;
  }

  /** The loop invariant of the tokenizer. */
  ghost predicate Inv(log: string, i: int, ls: int, sh: Shape, n: int, lastPipe: int, P: seq<int>,
                      rs: seq<Record>, parents: seq<Parents>, hashes: seq<string>)
  {
    0 <= ls <= i <= |log| && ls == LineStart(log[..i]) && sh == ShapeOf(log[ls..i]) &&
    rs == ParseLogTo(log[..i]) && parents == ResolveAll(rs) && hashes == Hashes(rs) &&
    Between(log, ls, i, sh, n, lastPipe, P, rs)
  }

  /** Within a line, the line start and the records read so far stay put. */
  lemma InLine(log: string, i: int, ls: int, sh: Shape, rs: seq<Record>)
    requires 0 <= ls <= i < |log| && !IsTerminator(log[i])
    requires ls == LineStart(log[..i]) && sh == ShapeOf(log[ls..i]) && rs == ParseLogTo(log[..i])
    ensures ls == LineStart(log[..i + 1]) && rs == ParseLogTo(log[..i + 1])
    ensures ShapeOk(sh, i - ls) && NextShape(sh, log[i], i - ls) == ShapeOf(log[ls..i + 1])
  {
    StepLine(log, i);
    StepRecords(log, i);
    ShapeStep(log[ls..i], log[i]);
  }

  lemma PipeInv(log: string, i: int, ls: int, sh: Shape, n: int, lastPipe: int, P: seq<int>,
                rs: seq<Record>, parents: seq<Parents>, hashes: seq<string>)
    requires WellFormedLog(log) && 0 <= i < |log| && log[i] == '|'
    requires Inv(log, i, ls, sh, n, lastPipe, P, rs, parents, hashes)
    ensures 0 <= n <= 3 && ShapeOk(sh, i - ls)
    ensures Inv(log, i + 1, ls, NextShape(sh, '|', i - ls), if n == 1 then 3 else n + 1, i,
                PipeWrite(P, n, lastPipe, i), rs, parents, hashes)
  {
    InLine(log, i, ls, sh, rs);
    assert Written(sh) <= 3 by { WrittenLimit(log, i); }
    PipeAdvance(log, ls, i, sh, n, lastPipe, P, rs);
  }

  lemma SpaceInv(log: string, i: int, ls: int, sh: Shape, n: int, lastPipe: int, P: seq<int>,
                 rs: seq<Record>, parents: seq<Parents>, hashes: seq<string>)
    requires 0 <= i < |log| && log[i] == ' ' && n == 1
    requires Inv(log, i, ls, sh, n, lastPipe, P, rs, parents, hashes)
    ensures ShapeOk(sh, i - ls)
    ensures Inv(log, i + 1, ls, NextShape(sh, ' ', i - ls), 2, i, P[2 := lastPipe + 1][3 := i], rs, parents, hashes)
  {
    InLine(log, i, ls, sh, rs);
    SpaceAdvance(log, ls, i, sh, n, lastPipe, P, rs);
  }

  lemma OtherInv(log: string, i: int, ls: int, sh: Shape, n: int, lastPipe: int, P: seq<int>,
                 rs: seq<Record>, parents: seq<Parents>, hashes: seq<string>)
    requires 0 <= i < |log| && log[i] != '|' && !IsTerminator(log[i]) && (log[i] == ' ' ==> n != 1)
    requires Inv(log, i, ls, sh, n, lastPipe, P, rs, parents, hashes)
    ensures ShapeOk(sh, i - ls)
    ensures Inv(log, i + 1, ls, NextShape(sh, log[i], i - ls), n, lastPipe, P, rs, parents, hashes)
  {
    InLine(log, i, ls, sh, rs);
    OtherAdvance(log, ls, i, sh, n, lastPipe, P, rs);
  }

  lemma TerminatorInv(log: string, i: int, ls: int, sh: Shape, n: int, lastPipe: int, P: seq<int>,
                      rs: seq<Record>, parents: seq<Parents>, hashes: seq<string>)
    requires WellFormedLog(log) && 0 <= i < |log| && IsTerminator(log[i])
    requires Inv(log, i, ls, sh, n, lastPipe, P, rs, parents, hashes)
    ensures 0 <= n <= 3
    ensures var P1 := P[2 * n := lastPipe + 1][2 * n + 1 := i];
            Spans(P1, |log|) &&
            var r := Denote(log, P1);
            Inv(log, i + 1, i + 1, Shape(-1, -1, -1, -1), 0, i, P1, rs + [r],
                parents + [Resolve(hashes, r.p0, r.p1)], hashes + [r.hash])
  {
    TerminatorLine(log, i, ls, sh, n, lastPipe, P, rs);
    TerminatorRecords(log, i, ls, rs, parents, hashes);
  }

  /** At a terminator the buffer is cut into the record `LineRecord` gives
      for the line, and a fresh line starts. */
  lemma TerminatorLine(log: string, i: int, ls: int, sh: Shape, n: int, lastPipe: int, P: seq<int>, rs: seq<Record>)
    requires WellFormedLog(log) && 0 <= ls <= i < |log| && IsTerminator(log[i])
    requires ls == LineStart(log[..i]) && sh == ShapeOf(log[ls..i])
    requires Between(log, ls, i, sh, n, lastPipe, P, rs)
    ensures 0 <= n <= 3
    ensures var P1 := P[2 * n := lastPipe + 1][2 * n + 1 := i];
            var r := LineRecord(log[ls..i], Stale(rs));
            Spans(P1, |log|) && Denote(log, P1) == r &&
            Between(log, i + 1, i + 1, Shape(-1, -1, -1, -1), 0, i, P1, rs + [r])
  {
    var cur, stale := log[ls..i], Stale(rs);
    LineEnd(log, i, ls, sh, stale);
    TerminatorBuffer(log, i, ls, Cut(sh), n, lastPipe, P, rs, Pending(cur, sh, stale), LineRecord(cur, stale));
  }

  /** A terminated line of a well-formed log has at most three fields, and
      the buffer's last write completes its record. */
  lemma LineEnd(log: string, i: int, ls: int, sh: Shape, stale: Record)
    requires WellFormedLog(log) && 0 <= i < |log| && IsTerminator(log[i])
    requires ls == LineStart(log[..i]) && sh == ShapeOf(log[ls..i])
    ensures Written(sh) <= 3 && -1 <= Cut(sh) < i - ls
    ensures SetField(Pending(log[ls..i], sh, stale), Written(sh), log[ls..i][Cut(sh) + 1..]) == LineRecord(log[ls..i], stale)
  {
    WrittenLimit(log, i);
    TerminatorStep(log[ls..i], stale, sh);
  }

  /** At a terminator the buffer ends up denoting the line's record `r`:
      the last write stores the text after the separator at `cut` in pair `n`. */
  lemma TerminatorBuffer(log: string, i: int, ls: int, cut: int, n: nat, lastPipe: int, P: seq<int>, rs: seq<Record>,
                         pend: Record, r: Record)
    requires 0 <= ls <= i < |log| && -1 <= cut < i - ls && n <= 3 && lastPipe == ls + cut
    requires Spans(P, i) && Denote(log, P) == pend && r == SetField(pend, n, log[ls..i][cut + 1..])
    ensures var P1 := P[2 * n := lastPipe + 1][2 * n + 1 := i];
            Spans(P1, |log|) && Denote(log, P1) == r &&
            Between(log, i + 1, i + 1, Shape(-1, -1, -1, -1), 0, i, P1, rs + [r])
  {
    LastWrite(log, i, ls, cut, n, lastPipe, P, pend, r);
    FreshLine(log, i, P[2 * n := lastPipe + 1][2 * n + 1 := i], rs, r);
  }

  /** The last write of a line: pair `n` spans the text after the separator. */
  lemma LastWrite(log: string, i: int, ls: int, cut: int, n: nat, lastPipe: int, P: seq<int>, pend: Record, r: Record)
    requires 0 <= ls <= i < |log| && -1 <= cut < i - ls && n <= 3 && lastPipe == ls + cut
    requires Spans(P, i) && Denote(log, P) == pend && r == SetField(pend, n, log[ls..i][cut + 1..])
    ensures var P1 := P[2 * n := lastPipe + 1][2 * n + 1 := i];
            Spans(P1, i + 1) && Spans(P1, |log|) && Denote(log, P1) == r
  {
    var from := lastPipe + 1;
    assert log[ls..i][cut + 1..] == log[from..i];
    DenoteWrite(log, P, i + 1, n, from, i);
    SpansWiden(P[2 * n := from][2 * n + 1 := i], i + 1, |log|);
  }

  /** Spans within a prefix are spans within any longer one. */
  lemma SpansWiden(P: seq<int>, i: int, j: int)
    requires Spans(P, i) && i <= j
    ensures Spans(P, j)
  {
  }

  /** At a terminator the record of the line joins the records, its
      parents and its hash, and a new line starts. */
  lemma TerminatorRecords(log: string, i: int, ls: int, rs: seq<Record>, parents: seq<Parents>, hashes: seq<string>)
    requires 0 <= ls <= i < |log| && IsTerminator(log[i]) && ls == LineStart(log[..i])
    requires rs == ParseLogTo(log[..i]) && parents == ResolveAll(rs) && hashes == Hashes(rs)
    ensures var r := LineRecord(log[ls..i], Stale(rs));
            i + 1 == LineStart(log[..i + 1]) && rs + [r] == ParseLogTo(log[..i + 1]) &&
            parents + [Resolve(hashes, r.p0, r.p1)] == ResolveAll(rs + [r]) &&
            hashes + [r.hash] == Hashes(rs + [r]) &&
            Shape(-1, -1, -1, -1) == ShapeOf(log[i + 1..i + 1])
  {
    var r := LineRecord(log[ls..i], Stale(rs));
    StepLine(log, i);
    StepRecords(log, i);
    ResolveAllAppend(rs, r);
    HashesAppend(rs, r);
    assert log[i + 1..i + 1] == [];
  }

  /** Before the first character: no line read, nothing written. */
  lemma InvInit(log: string, P: seq<int>)
    requires P == [0, 0, 0, 0, 0, 0, 0, 0]
    ensures Inv(log, 0, 0, Shape(-1, -1, -1, -1), 0, -1, P, [], [], [])
  {
    assert log[..0] == [] && log[0..0] == [];
    assert Hashes([]) == [];
  }

  /** The '|' case of the tokenizer's switch. */
  method CutAtPipe(log: string, i: int, parts: array<int>, n: int, lastPipe: int, ghost ls: int, ghost sh: Shape,
                   ghost rs: seq<Record>, ghost parents: seq<Parents>, ghost hashes: seq<string>)
    returns (n': int, lastPipe': int, ghost sh': Shape)
    requires WellFormedLog(log) && 0 <= i < |log| && log[i] == '|'
    requires Inv(log, i, ls, sh, n, lastPipe, parts[..], rs, parents, hashes)
    modifies parts
    ensures Inv(log, i + 1, ls, sh', n', lastPipe', parts[..], rs, parents, hashes)
  {
    PipeInv(log, i, ls, sh, n, lastPipe, parts[..], rs, parents, hashes);
    n' := WritePipe(parts, n, lastPipe, i);
    lastPipe' := i;
    sh' := NextShape(sh, '|', i - ls);
  }

  /** The buffer writes of the '|' case: the field that ends at the pipe,
      and an empty second parent when the pipe ends the first one. */
  method WritePipe(parts: array<int>, n: int, lastPipe: int, i: int) returns (n': int)
    requires parts.Length == 8 && 0 <= n <= 3
    modifies parts
    ensures parts[..] == PipeWrite(old(parts[..]), n, lastPipe, i)
    ensures n' == if n == 1 then 3 else n + 1
  {
    ghost var P := parts[..];
    n' := n;
    parts[2 * n'] := lastPipe + 1;
    parts[2 * n' + 1] := i;
    if n' == 1 {
      n' := n' + 1;
      parts[2 * n'] := i;
      parts[2 * n' + 1] := i;
    }
    n' := n' + 1;
    assert parts[..] == PipeWrite(P, n, lastPipe, i);
  }

  /** The ' ' case of the tokenizer's switch, when it ends the first parent. */
  method CutAtSpace(log: string, i: int, parts: array<int>, n: int, lastPipe: int, ghost ls: int, ghost sh: Shape,
                    ghost rs: seq<Record>, ghost parents: seq<Parents>, ghost hashes: seq<string>)
    returns (n': int, lastPipe': int, ghost sh': Shape)
    requires 0 <= i < |log| && log[i] == ' ' && n == 1
    requires Inv(log, i, ls, sh, n, lastPipe, parts[..], rs, parents, hashes)
    modifies parts
    ensures Inv(log, i + 1, ls, sh', n', lastPipe', parts[..], rs, parents, hashes)
  {
    ghost var P := parts[..];
    SpaceInv(log, i, ls, sh, n, lastPipe, P, rs, parents, hashes);
    parts[2 * n] := lastPipe + 1;
    parts[2 * n + 1] := i;
    lastPipe' := i;
    n' := n + 1;
    assert parts[..] == P[2 := lastPipe + 1][3 := i];
    sh' := NextShape(sh, ' ', i - ls);
  }

  /** The terminator case of the tokenizer's switch: cut the record, resolve
      its parents and push both. */
  method CutAtTerminator(log: string, i: int, parts: array<int>, n: int, lastPipe: int, ghost ls: int, ghost sh: Shape,
                         rs: seq<Record>, parents: seq<Parents>, hashes: seq<string>)
    returns (n': int, lastPipe': int, rs': seq<Record>, parents': seq<Parents>, hashes': seq<string>)
    requires WellFormedLog(log) && 0 <= i < |log| && IsTerminator(log[i])
    requires Inv(log, i, ls, sh, n, lastPipe, parts[..], rs, parents, hashes)
    modifies parts
    ensures Inv(log, i + 1, i + 1, Shape(-1, -1, -1, -1), n', lastPipe', parts[..], rs', parents', hashes')
  {
    ghost var P := parts[..];
    TerminatorInv(log, i, ls, sh, n, lastPipe, P, rs, parents, hashes);
    parts[2 * n] := lastPipe + 1;
    parts[2 * n + 1] := i;
    lastPipe' := i;
    n' := 0;
    assert parts[..] == P[2 * n := lastPipe + 1][2 * n + 1 := i];
    var r := Record(log[parts[0]..parts[1]], log[parts[2]..parts[3]], log[parts[4]..parts[5]], log[parts[6]..parts[7]]);
    var par := ResolveParents(hashes, r.p0, r.p1);
    parents' := parents + [par];
    rs' := rs + [r];
    hashes' := hashes + [r.hash];
  }

  /** One turn of the tokenizer loop: the switch on `log[i]`. */
  method ReadChar(log: string, i: int, parts: array<int>, n: int, lastPipe: int, ghost ls: int, ghost sh: Shape,
                  rs: seq<Record>, parents: seq<Parents>, hashes: seq<string>)
    returns (n': int, lastPipe': int, rs': seq<Record>, parents': seq<Parents>, hashes': seq<string>,
             ghost ls': int, ghost sh': Shape)
    requires WellFormedLog(log) && 0 <= i < |log|
    requires Inv(log, i, ls, sh, n, lastPipe, parts[..], rs, parents, hashes)
    modifies parts
    ensures Inv(log, i + 1, ls', sh', n', lastPipe', parts[..], rs', parents', hashes')
  {
    var c := log[i];
    rs', parents', hashes', ls' := rs, parents, hashes, ls;
    if c == '|' {
      n', lastPipe', sh' := CutAtPipe(log, i, parts, n, lastPipe, ls, sh, rs, parents, hashes);
    } else if c == ' ' && n == 1 {
      n', lastPipe', sh' := CutAtSpace(log, i, parts, n, lastPipe, ls, sh, rs, parents, hashes);
    } else if c == '\0' || c == '\n' {
      n', lastPipe', rs', parents', hashes' := CutAtTerminator(log, i, parts, n, lastPipe, ls, sh, rs, parents, hashes);
      ls', sh' := i + 1, Shape(-1, -1, -1, -1);
    } else {
      OtherInv(log, i, ls, sh, n, lastPipe, parts[..], rs, parents, hashes);
      n', lastPipe', sh' := n, lastPipe, NextShape(sh, c, i - ls);
    }
  }

  /** The tokenizer loop of `ggit_graph_load_repository`: one record and one
      parent pair per terminated line, in order. */
  method ParseLog(log: string) returns (records: seq<Record>, parents: seq<Parents>)
    requires WellFormedLog(log)
    ensures records == ParseLogTo(log)
    ensures parents == ResolveAll(records)
  {
    var lastPipe := -1;
    var n := 0;
    // zero stands for the uninitialised buffer; the first line writes all of it
    var parts := new int[8](_ => 0);
    records := [];
    parents := [];
    var hashes: seq<string> := [];
    ghost var ls := 0;
    ghost var sh := Shape(-1, -1, -1, -1);
    var i := 0;
    assert parts[..] == [0, 0, 0, 0, 0, 0, 0, 0];
    InvInit(log, parts[..]);
    while i < |log|
      invariant Inv(log, i, ls, sh, n, lastPipe, parts[..], records, parents, hashes)
    {
      n, lastPipe, records, parents, hashes, ls, sh := ReadChar(log, i, parts, n, lastPipe, ls, sh, records, parents, hashes);
      i := i + 1;
    }
    assert log[..i] == log;
  }
}
