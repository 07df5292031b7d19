/** String helpers of ggit-graph.c (`starts_with`, `index_of`) and the C-string
    conventions the loader relies on. A C string is modelled by the characters
    before its terminating '\0'. */
module Text {

  /** `starts_with(str, prefix)`: `strncmp` over `strlen(prefix)` characters
      succeeds exactly when `prefix` is a prefix of `str`. */
  predicate StartsWith(s: string, prefix: string) {
    |prefix| <= |s| && s[..|prefix|] == prefix
  }

  /** Prefixes compose: `a` then a prefix of what follows `a`. */
  lemma StartsWithThen(m: string, a: string, p: string)
    requires StartsWith(m, a) && StartsWith(m[|a|..], p)
    ensures StartsWith(m, a + p)
  {
    assert m[..|a + p|] == m[..|a|] + m[|a|..][..|p|];
  }

  /** A text that starts with `a + p` starts with `a` and continues with `p`. */
  lemma StartsWithSplit(m: string, a: string, p: string)
    requires StartsWith(m, a + p)
    ensures StartsWith(m, a) && StartsWith(m[|a|..], p)
  {
    assert m[..|a|] == (a + p)[..|a|];
    assert m[|a|..][..|p|] == m[..|a + p|][|a|..];
  }

  /** Dropping twice is dropping once. */
  lemma DropDrop<T>(s: seq<T>, i: nat, j: nat)
    requires i + j <= |s|
    ensures s[i..][j..] == s[i + j..]
    ensures j < |s| - i ==> s[i..][j] == s[i + j]
  {
  }

  /** The two halves of a concatenation. */
  lemma Halves<T>(m: seq<T>, a: seq<T>, b: seq<T>)
    requires m == a + b
    ensures m[..|a|] == a && m[|a|..] == b
  {
  }

  /** A character other than `c` extends a run free of `c`. */
  lemma NotInExtend(s: string, lo: nat, i: nat, c: char)
    requires lo <= i < |s| && c !in s[lo..i] && s[i] != c
    ensures c !in s[lo..i + 1]
  {
    assert s[lo..i + 1] == s[lo..i] + [s[i]];
  }

  /** A slice that ends inside the left operand of a concatenation. */
  lemma SliceLeft<T>(s: seq<T>, t: seq<T>, i: nat, j: nat)
    requires i <= j <= |s|
    ensures (s + t)[i..j] == s[i..j]
  {
  }

  /** The tail of a slice is a slice. */
  lemma SliceTail<T>(s: seq<T>, lo: nat, hi: nat, k: nat)
    requires lo + k <= hi <= |s|
    ensures s[lo..hi][k..] == s[lo + k..hi]
  {
  }

  /** `index_of`: the first position of `c` in `s`, or -1 when `c` does not occur. */
  function IndexOf(s: string, c: char): (r: int)
    ensures -1 <= r < |s|
    ensures r >= 0 ==> s[r] == c && c !in s[..r]
    ensures r < 0 <==> c !in s
  {
    if s == [] then -1
    else if s[0] == c then 0
    else
      var k := IndexOf(s[1..], c);
      assert s[1..][..k + 1] == s[1..k + 2] by { if k >= 0 { assert s[1..][..k] == s[1..k + 1]; } }
      if k < 0 then -1 else k + 1
  }

  /** The loop of `index_of` over the first `|s|` characters. */
  method FindIndex(s: string, c: char) returns (r: int)
    ensures r == IndexOf(s, c)
  {
    var i := 0;
    while i < |s|
      invariant 0 <= i <= |s|
      invariant c !in s[..i]
    {
      if s[i] == c {
        IndexOfUnique(s, c, i);
        return i;
      }
      assert s[..i + 1] == s[..i] + [s[i]];
      i := i + 1;
    }
    assert s[..i] == s;
    return -1;
  }

  /** The position `IndexOf` reports is determined by the first occurrence. */
  lemma IndexOfUnique(s: string, c: char, k: int)
    requires 0 <= k < |s| && s[k] == c && c !in s[..k]
    ensures IndexOf(s, c) == k
  {
  }

  /** Appending one character can only matter when `c` did not occur before. */
  lemma IndexOfAppend(s: string, x: char, c: char)
    ensures IndexOf(s + [x], c) ==
      if IndexOf(s, c) >= 0 then IndexOf(s, c)
      else if x == c then |s|
      else -1
  {
    var t := s + [x];
    assert t[..|s|] == s;
    var k := IndexOf(s, c);
    if k >= 0 {
      assert t[..k] == s[..k];
      IndexOfUnique(t, c, k);
    } else if x == c {
      IndexOfUnique(t, c, |s|);
    } else {
      assert c !in t by {
        forall i | 0 <= i < |t| ensures t[i] != c {
          if i < |s| { assert t[i] == s[i]; }
        }
      }
    }
  }

  /** A prefix of `s` before the first `c` keeps the answer of `IndexOf`. */
  lemma IndexOfPrefix(s: string, t: string, c: char)
    requires IndexOf(s, c) >= 0
    ensures IndexOf(s + t, c) == IndexOf(s, c)
  {
    var k := IndexOf(s, c);
    assert (s + t)[..k] == s[..k];
    IndexOfUnique(s + t, c, k);
  }

  /** When `c` is absent from `s`, it is found in `s + t` shifted by `|s|`. */
  lemma IndexOfShift(s: string, t: string, c: char)
    requires c !in s
    ensures IndexOf(s + t, c) == if IndexOf(t, c) < 0 then -1 else |s| + IndexOf(t, c)
  {
    var k := IndexOf(t, c);
    if k >= 0 {
      assert (s + t)[..|s| + k] == s + t[..k];
      IndexOfUnique(s + t, c, |s| + k);
    } else {
      assert c !in s + t by {
        forall i | 0 <= i < |s + t| ensures (s + t)[i] != c {
          if i >= |s| { assert (s + t)[i] == t[i - |s|]; }
        }
      }
    }
  }

  /** The first position at or after `from` holding `c`, or -1: the scan
      the log tokenizer makes for its separators. */
  function IndexFrom(s: string, c: char, from: nat): (r: int)
    ensures r == -1 || from <= r < |s|
    ensures r >= 0 ==> s[r] == c && forall j :: from <= j < r ==> s[j] != c
    ensures r < 0 ==> forall j :: from <= j < |s| ==> s[j] != c
    decreases |s| - from
  {
    if from >= |s| then -1
    else if s[from] == c then from
    else IndexFrom(s, c, from + 1)
  }

  /** `IndexFrom` is determined by its characterisation. */
  lemma IndexFromIs(s: string, c: char, from: nat, k: int)
    requires (k == -1 && forall j :: from <= j < |s| ==> s[j] != c) ||
             (from <= k < |s| && s[k] == c && forall j :: from <= j < k ==> s[j] != c)
    ensures IndexFrom(s, c, from) == k
  {
  }

  /** Appending one character can only matter when `c` did not occur before. */
  lemma IndexFromAppend(s: string, x: char, c: char, from: nat)
    requires from <= |s|
    ensures IndexFrom(s + [x], c, from) ==
      if IndexFrom(s, c, from) >= 0 then IndexFrom(s, c, from)
      else if x == c then |s|
      else -1
  {
    var t := s + [x];
    var k := IndexFrom(s, c, from);
    assert forall j :: 0 <= j < |s| ==> t[j] == s[j];
    if k >= 0 {
      IndexFromIs(t, c, from, k);
    } else if x == c {
      IndexFromIs(t, c, from, |s|);
    } else {
      IndexFromIs(t, c, from, -1);
    }
  }

  /** The text of a C string: everything before the first '\0'. */
  function CStr(s: string): (r: string)
    ensures '\0' !in r
    ensures StartsWith(s, r)
    ensures '\0' !in s ==> r == s
  {
    var k := IndexOf(s, '\0');
    if k < 0 then s else s[..k]
  }

  /** Number of occurrences of `c` in `s`, counted from the front. */
  function Count(s: string, c: char): (r: nat)
    ensures r <= |s|
    ensures r == 0 <==> c !in s
  {
    if s == [] then 0
    else
      Count(s[..|s| - 1], c) + (if s[|s| - 1] == c then 1 else 0)
  }

  /** Counting distributes over concatenation. */
  lemma {:induction false} CountAppend(s: string, t: string, c: char)
    ensures Count(s + t, c) == Count(s, c) + Count(t, c)
    decreases |t|
  {
    if t == [] {
      assert s + t == s;
    } else {
      var u := t[..|t| - 1];
      assert (s + t)[..|s + t| - 1] == s + u;
      CountAppend(s, u, c);
    }
  }

  /** A longer prefix holds at least as many occurrences. */
  lemma CountPrefix(s: string, c: char, j: nat, k: nat)
    requires j <= k <= |s|
    ensures Count(s[..j], c) <= Count(s[..k], c)
  {
    assert s[..k] == s[..j] + s[j..k];
    CountAppend(s[..j], s[j..k], c);
  }

  /** Taking in one more occurrence counts one more. */
  lemma CountHit(s: string, c: char, k: nat)
    requires k < |s| && s[k] == c
    ensures Count(s[..k + 1], c) == Count(s[..k], c) + 1
  {
    assert s[..k + 1][..k] == s[..k];
  }

  /** An occurrence at `j` is counted by every prefix that reaches past it. */
  lemma CountPast(s: string, c: char, j: nat, k: nat)
    requires j < k <= |s| && s[j] == c
    ensures Count(s[..k], c) >= Count(s[..j], c) + 1
  {
    CountHit(s, c, j);
    CountPrefix(s, c, j + 1, k);
  }

  /** Three distinct occurrences are counted. */
  lemma CountThree(s: string, c: char, i: nat, j: nat, k: nat)
    requires i < j < k < |s| && s[i] == c && s[j] == c && s[k] == c
    ensures Count(s, c) >= 3
  {
    assert Count(s[..j], c) >= 1 by { CountPast(s, c, i, j); }
    assert Count(s[..k], c) >= 2 by { CountPast(s, c, j, k); }
    assert s[..|s|] == s;
    CountPast(s, c, k, |s|);
  }

  /** The position just after the last `c` among the first `i` characters
      of `s`, or 0: where a field that `c` ends the previous one starts. */
  function StartAfter(s: string, c: char, i: nat): (r: nat)
    requires i <= |s|
    ensures r <= i
    ensures r > 0 ==> s[r - 1] == c
    ensures forall j :: r <= j < i ==> s[j] != c
  {
    if i == 0 then 0
    else if s[i - 1] == c then i
    else StartAfter(s, c, i - 1)
  }

  /** `StartAfter` only looks at the characters before `i`. */
  lemma {:induction false} StartAfterAgree(s: string, t: string, c: char, i: nat)
    requires i <= |s| && i <= |t| && forall j :: 0 <= j < i ==> s[j] == t[j]
    ensures StartAfter(s, c, i) == StartAfter(t, c, i)
  {
    if i > 0 {
      StartAfterAgree(s, t, c, i - 1);
    }
  }
}
