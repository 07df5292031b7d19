/** The growable vector of ggit-vector.c: a buffer of `capacity` slots of
    which the first `size` hold the elements, grown by reallocation, with
    insertion by shifting, bulk appends and a tiny `%s`/`%%` formatter.
    Element bytes are modelled as values of `T`; `value_size` is kept as the
    number the caller chose, since the formatter and bulk append depend on it. */
module Vectors {
  import opened Text

  /** The capacity `ggit_vector_grow(more, exact)` settles on: 8 for a first
      single-slot growth, exactly `cap + more` when asked to be exact, and
      otherwise `3 * cap`, `4 * cap`, ... until `cap + more` slots fit. */
  function GrowCapacity(cap: nat, more: nat, exact: bool): (r: nat)
    requires more > 0 && (exact || cap > 0 || more == 1)
    ensures r >= cap + more
    ensures more == 1 && cap == 0 ==> r == 8
    ensures !(more == 1 && cap == 0) && exact ==> r == cap + more
  {
    if more == 1 && cap == 0 then 8
    else if exact then cap + more
    else StepUp(3 * cap, cap, more)
  }

  /** The `do { n += cap } while (n < cap + more)` tail of the growth rule,
      entered after its first addition: the first of `n`, `n + cap`, ...
      that holds `cap + more` slots. */
  function StepUp(n: nat, cap: nat, more: nat): (r: nat)
    requires cap > 0
    ensures r >= n && r >= cap + more
    ensures r > n ==> r - cap < cap + more
    decreases cap + more - n
  {
    if n < cap + more then StepUp(n + cap, cap, more) else n
  }

  /** Growth on insertion: an empty vector jumps to 8 slots, any other triples,
      and afterwards the old size plus one element always fits. */
  lemma InsertGrowth(cap: nat)
    ensures GrowCapacity(cap, 1, false) == if cap == 0 then 8 else 3 * cap
    ensures GrowCapacity(cap, 1, false) > cap
  {
  }

  /** Non-exact growth starts at three times the capacity and overshoots
      by less than one step of `cap`. */
  lemma GrowTight(cap: nat, more: nat)
    requires cap > 0 && more > 0
    ensures var r := GrowCapacity(cap, more, false);
      r >= 3 * cap && (r > 3 * cap ==> r - cap < cap + more)
  {
  }

  /** The capacity after `ggit_vector_reserve(at_least)`: unchanged when it
      already suffices, else grown exactly, except that reserving one slot in
      an empty vector takes the first-growth path and yields 8. */
  function ReservedCapacity(cap: nat, atLeast: int): (r: nat)
    ensures r >= cap && r >= atLeast
    ensures atLeast <= cap ==> r == cap
    ensures cap < atLeast && !(cap == 0 && atLeast == 1) ==> r == atLeast
  {
    var more := atLeast - cap;
    if more > 0 then GrowCapacity(cap, more, true) else cap
  }

  /** `struct ggit_vector`. */
  class Vector<T(0)> {
    var size: nat
    var capacity: nat
    var valueSize: int
    var data: array<T>

    ghost predicate Valid()
      reads this
    {
      size <= capacity == data.Length
    }

    /** The elements: the first `size` slots. */
    ghost function Contents(): seq<T>
      reads this, data
      requires Valid()
    {
      data[..size]
    }

    /** `ggit_vector_init`: no elements, no storage, the given element size. */
    constructor (valueSize: int)
      ensures Valid() && fresh(data)
      ensures size == 0 && capacity == 0 && this.valueSize == valueSize
      ensures Contents() == []
    {
      this.valueSize := valueSize;
      size := 0;
      capacity := 0;
      data := new T[0];
    }

    /** `ggit_vector_get`, read as plain indexing: any slot below the capacity. */
    function Get(index: int): (r: T)
      reads this, data
      requires Valid() && 0 <= index < capacity
      ensures index < size ==> r == Contents()[index]
    {
      data[index]
    }

    /** `ggit_vector_clear`: drops the elements, keeps the storage. */
    method Clear()
      requires Valid()
      modifies this
      ensures Valid() && Contents() == []
      ensures capacity == old(capacity) && data == old(data) && valueSize == old(valueSize)
    {
      size := 0;
    }

    /** `ggit_vector_grow`: reallocates to `GrowCapacity` slots, keeping every
        old slot. */
    method Grow(more: nat, exact: bool)
      requires Valid() && more > 0 && (exact || capacity > 0 || more == 1)
      modifies this
      ensures Valid() && fresh(data)
      ensures capacity == GrowCapacity(old(capacity), more, exact)
      ensures data[..old(capacity)] == old(data[..])
      ensures size == old(size) && valueSize == old(valueSize)
      ensures Contents() == old(Contents())
    {
      var oldCapacity := capacity;
      var newCapacity: nat;
      if more == 1 && oldCapacity == 0 {
        newCapacity := 8;
      } else if exact {
        newCapacity := oldCapacity + more;
      } else {
        newCapacity := oldCapacity + oldCapacity;
        newCapacity := newCapacity + oldCapacity;
        while newCapacity < oldCapacity + more
          invariant StepUp(newCapacity, oldCapacity, more) == StepUp(3 * oldCapacity, oldCapacity, more)
          decreases oldCapacity + more - newCapacity
        {
          newCapacity := newCapacity + oldCapacity;
        }
      }
      var oldBlock := data;
      var block := new T[newCapacity];
      var i := 0;
      while i < oldCapacity
        modifies block
        invariant 0 <= i <= oldCapacity
        invariant forall j :: 0 <= j < i ==> block[j] == oldBlock[j]
      {
        block[i] := oldBlock[i];
        i := i + 1;
      }
      data := block;
      capacity := newCapacity;
      assert data[..oldCapacity] == oldBlock[..];
      assert data[..size] == oldBlock[..size];
    }

    /** `ggit_vector_insert`: grows when full, shifts the elements from `index`
        on up by one slot and stores `value` at `index`. */
    method Insert(index: nat, value: T)
      requires Valid() && index <= size
      modifies this, data
      ensures Valid()
      ensures Contents() == old(Contents())[..index] + [value] + old(Contents())[index..]
      ensures data == old(data) || fresh(data)
      ensures capacity == if old(size) + 1 > old(capacity)
                          then GrowCapacity(old(capacity), 1, false) else old(capacity)
      ensures valueSize == old(valueSize)
    {
      if size + 1 > capacity {
        Grow(1, false);
      }
      ghost var before := data[..size];
      ShiftUp(data, index, size);
      data[index] := value;
      size := size + 1;
      assert data[..size] == before[..index] + [value] + before[index..] by {
        forall k | 0 <= k < size
          ensures data[k] == (before[..index] + [value] + before[index..])[k]
        {
          if k > index {
            assert data[k] == before[k - 1];
          }
        }
      }
    }

    /** `ggit_vector_push`: insertion at the end. */
    method Push(value: T)
      requires Valid()
      modifies this, data
      ensures Valid() && Contents() == old(Contents()) + [value]
      ensures data == old(data) || fresh(data)
      ensures capacity == if old(size) + 1 > old(capacity)
                          then GrowCapacity(old(capacity), 1, false) else old(capacity)
      ensures valueSize == old(valueSize)
    {
      Insert(size, value);
    }

    /** `ggit_vector_reserve`: capacity for at least `atLeast` slots; elements untouched. */
    method Reserve(atLeast: int)
      requires Valid()
      modifies this
      ensures Valid() && Contents() == old(Contents())
      ensures capacity == ReservedCapacity(old(capacity), atLeast)
      ensures size == old(size) && valueSize == old(valueSize)
      ensures capacity == old(capacity) ==> data == old(data)
      ensures data == old(data) || fresh(data)
    {
      var more := atLeast - capacity;
      if more > 0 {
        Grow(more, true);
      }
    }

    /** `ggit_vector_reserve_more`: room for `more` elements beyond the current ones. */
    method ReserveMore(more: int)
      requires Valid()
      modifies this
      ensures Valid() && Contents() == old(Contents())
      ensures capacity == ReservedCapacity(old(capacity), old(size) + more)
      ensures capacity >= size + more
      ensures size == old(size) && valueSize == old(valueSize)
      ensures capacity == old(capacity) ==> data == old(data)
      ensures data == old(data) || fresh(data)
    {
      Reserve(size + more);
    }

    /** `ggit_vector_push_array`: appends `values` in order. */
    method PushArray(values: seq<T>)
      requires Valid() && valueSize > 0
      modifies this, data
      ensures Valid() && Contents() == old(Contents()) + values
      ensures data == old(data) || fresh(data)
      ensures capacity == ReservedCapacity(old(capacity), old(size) + |values|)
      ensures valueSize == old(valueSize)
    {
      ReserveMore(|values|);
      ghost var before := data[..size];
      var i := 0;
      while i < |values|
        modifies data
        invariant 0 <= i <= |values|
        invariant forall j :: 0 <= j < size ==> data[j] == before[j]
        invariant forall j :: 0 <= j < i ==> data[size + j] == values[j]
      {
        data[size + i] := values[i];
        i := i + 1;
      }
      size := size + |values|;
      assert data[..size] == before + values by {
        forall j | 0 <= j < size ensures data[j] == (before + values)[j] {
          if j >= |before| {
            assert data[|before| + (j - |before|)] == values[j - |before|];
          }
        }
      }
    }
  }

  /** The `memmove` of `ggit_vector_insert`: the slots `from .. to - 1`
      move up by one, into `from + 1 .. to`; the rest stays. */
  method ShiftUp<T>(a: array<T>, from: nat, to: nat)
    requires from <= to < a.Length
    modifies a
    ensures forall k :: 0 <= k <= from ==> a[k] == old(a[k])
    ensures forall k :: from < k <= to ==> a[k] == old(a[k - 1])
    ensures forall k :: to < k < a.Length ==> a[k] == old(a[k])
  {
    var j := to;
    while j > from
      invariant from <= j <= to
      invariant forall k :: 0 <= k <= j ==> a[k] == old(a[k])
      invariant forall k :: j < k <= to ==> a[k] == old(a[k - 1])
      invariant forall k :: to < k < a.Length ==> a[k] == old(a[k])
      decreases j
    {
      a[j] := a[j - 1];
      j := j - 1;
    }
  }

  /** `ggit_vector_push_string`: appends the characters of a C string. */
  method PushString(v: Vector<char>, str: string)
    requires v.Valid() && v.valueSize > 0
    modifies v, v.data
    ensures v.Valid() && v.Contents() == old(v.Contents()) + CStr(str)
    ensures v.valueSize == old(v.valueSize)
    ensures v.data == old(v.data) || fresh(v.data)
  {
    v.PushArray(CStr(str));
  }

  /** A format the formatter can run to its end: no lone trailing `%`, and an
      argument for every `%s`. */
  predicate FormatOk(f: string, args: nat)
    decreases |f|
  {
    if f == [] then true
    else if f[0] != '%' then FormatOk(f[1..], args)
    else if |f| < 2 then false
    else if f[1] == 's' then args >= 1 && FormatOk(f[2..], args - 1)
    else FormatOk(f[2..], args)
  }

  /** The text `ggit_vector_push_vsprintf` produces: literal characters,
      `%%` as `%`, `%s` as the next argument, any other `%c` dropped. */
  function Format(f: string, args: seq<string>): string
    requires FormatOk(f, |args|)
    decreases |f|
  {
    if f == [] then []
    else if f[0] != '%' then [f[0]] + Format(f[1..], args)
    else if f[1] == '%' then "%" + Format(f[2..], args)
    else if f[1] == 's' then CStr(args[0]) + Format(f[2..], args[1..])
    else Format(f[2..], args)
  }

  /** Text without `%` is copied as it is. */
  lemma {:induction false} FormatLiteral(f: string, args: seq<string>)
    requires '%' !in f
    ensures FormatOk(f, |args|) && Format(f, args) == f
    decreases |f|
  {
    if f != [] {
      assert '%' !in f[1..];
      FormatLiteral(f[1..], args);
    }
  }

  /** A run of literal text in front of the rest of a format is copied ahead of it. */
  lemma {:induction false} FormatSplit(f: string, j: nat, args: seq<string>)
    requires j <= |f| && '%' !in f[..j]
    ensures FormatOk(f, |args|) <==> FormatOk(f[j..], |args|)
    ensures FormatOk(f, |args|) ==> Format(f, args) == f[..j] + Format(f[j..], args)
    decreases j
  {
    if j > 0 {
      assert f[1..][..j - 1] == f[..j][1..];
      FormatSplit(f[1..], j - 1, args);
      assert f[1..][j - 1..] == f[j..];
      assert f[..j] == [f[0]] + f[1..][..j - 1];
    }
  }

  /** Doubles every `%`, so that the formatter reproduces the text. */
  function Escape(s: string): (r: string)
    ensures |r| >= |s|
  {
    if s == [] then []
    else if s[0] == '%' then "%%" + Escape(s[1..])
    else [s[0]] + Escape(s[1..])
  }

  /** Round trip: formatting an escaped text gives the text back, with no
      arguments consumed. */
  lemma {:induction false} FormatEscape(s: string, args: seq<string>)
    ensures FormatOk(Escape(s), |args|) && Format(Escape(s), args) == s
  {
    if s != [] {
      FormatEscape(s[1..], args);
      var e := Escape(s);
      if s[0] == '%' {
        assert e[2..] == Escape(s[1..]);
      } else {
        assert e[1..] == Escape(s[1..]);
      }
    }
  }

  /** What the directive `%c` stands for, given the remaining arguments. */
  function DirectiveText(c: char, args: seq<string>): string
    requires c == 's' ==> |args| >= 1
  {
    if c == '%' then "%" else if c == 's' then CStr(args[0]) else ""
  }

  /** The inner `switch` of `ggit_vector_push_vsprintf`: pushes what the
      directive `%c` stands for and consumes an argument for `%s`. */
  method PushDirective(v: Vector<char>, c: char, args: seq<string>, k: nat) returns (next: nat)
    requires v.Valid() && v.valueSize == 1 && k <= |args| && (c == 's' ==> k < |args|)
    modifies v, v.data
    ensures v.Valid() && v.valueSize == 1
    ensures v.data == old(v.data) || fresh(v.data)
    ensures next == if c == 's' then k + 1 else k
    ensures v.Contents() == old(v.Contents()) + DirectiveText(c, args[k..])
  {
    next := k;
    if c == '%' {
      v.Push(c);
    } else if c == 's' {
      PushString(v, args[k]);
      next := k + 1;
    }
  }

  /** The body of the `'%'` case of `ggit_vector_push_vsprintf`: pushes the
      literal run `format[last..i]` that precedes the `%` at `i`, then what
      the directive `format[i + 1]` stands for; the next argument is
      `args[k]`. What remains to be pushed is then the rest of the format
      after the directive. */
  method PushReplacement(v: Vector<char>, format: string, last: nat, i: nat, args: seq<string>, k: nat)
    returns (next: nat)
    requires v.Valid() && v.valueSize == 1
    requires last <= i < |format| && format[i] == '%' && '%' !in format[last..i]
    requires k <= |args| && FormatOk(format[last..], |args| - k)
    modifies v, v.data
    ensures v.Valid() && v.valueSize == 1
    ensures v.data == old(v.data) || fresh(v.data)
    ensures i + 1 < |format| && k <= next <= |args|
    ensures next == if format[i + 1] == 's' then k + 1 else k
    ensures FormatOk(format[i + 2..], |args| - next)
    ensures v.Contents() + Format(format[i + 2..], args[next..]) ==
            old(v.Contents()) + Format(format[last..], args[k..])
  {
    ReplacementStep(format, last, i, args, k);
    ghost var text := v.Contents();
    ghost var directive := DirectiveText(format[i + 1], args[k..]);
    ghost var taken := if format[i + 1] == 's' then k + 1 else k;
    ghost var rest := Format(format[i + 2..], args[taken..]);
    v.PushArray(format[last..i]);
    next := PushDirective(v, format[i + 1], args, k);
    Regroup(v.Contents(), text, format[last..i], directive, rest, Format(format[last..], args[k..]));
  }

  /** One turn of the loop of `ggit_vector_push_vsprintf`: a `%` pushes
      the literal run before it and its directive, and the scan resumes
      past the directive; any other character only extends the run. */
  method PushFormatChar(v: Vector<char>, format: string, last: nat, i: nat, args: seq<string>, k: nat)
    returns (last2: nat, i2: nat, k2: nat)
    requires v.Valid() && v.valueSize == 1
    requires last <= i < |format| && k <= |args|
    requires '%' !in format[last..i] && FormatOk(format[last..], |args| - k)
    modifies v, v.data
    ensures v.Valid() && v.valueSize == 1
    ensures v.data == old(v.data) || fresh(v.data)
    ensures last2 <= i2 <= |format| && i < i2 && k2 <= |args|
    ensures '%' !in format[last2..i2] && FormatOk(format[last2..], |args| - k2)
    ensures v.Contents() + Format(format[last2..], args[k2..]) == old(v.Contents()) + Format(format[last..], args[k..])
  {
    if format[i] == '%' {
      k2 := PushReplacement(v, format, last, i, args, k);
      i2 := i + 1;
      last2 := i2 + 1;
    } else {
      NotInExtend(format, last, i, '%');
      last2, i2, k2 := last, i, k;
    }
    i2 := i2 + 1;
  }

  /** `ggit_vector_push_vsprintf` over a C format text (no '\0' inside it)
      and the list of string arguments. */
  method PushVsprintf(v: Vector<char>, format: string, args: seq<string>)
    requires v.Valid() && v.valueSize == 1
    requires '\0' !in format && FormatOk(format, |args|)
    modifies v, v.data
    ensures v.Valid() && v.Contents() == old(v.Contents()) + Format(format, args)
    ensures v.valueSize == old(v.valueSize)
    ensures v.data == old(v.data) || fresh(v.data)
  {
    var i := 0;
    var lastReplacement := 0;
    var k := 0;
    while i < |format|
      invariant v.data == old(v.data) || fresh(v.data)
      invariant 0 <= lastReplacement <= i <= |format| && 0 <= k <= |args|
      invariant v.Valid() && v.valueSize == 1
      invariant '%' !in format[lastReplacement..i]
      invariant FormatOk(format[lastReplacement..], |args| - k)
      invariant v.Contents() + Format(format[lastReplacement..], args[k..]) ==
                old(v.Contents()) + Format(format, args)
      decreases |format| - i
    {
      lastReplacement, i, k := PushFormatChar(v, format, lastReplacement, i, args, k);
    }
    FormatLiteral(format[lastReplacement..], args[k..]);
    PushString(v, format[lastReplacement..]);
  }

  /** A directive at the front of a format: what it stands for, then the
      rest of the format with the arguments it left. */
  lemma FormatDirective(f: string, args: seq<string>)
    requires |f| >= 1 && f[0] == '%' && FormatOk(f, |args|)
    ensures |f| >= 2 && (f[1] == 's' ==> |args| >= 1)
    ensures var taken := if f[1] == 's' then 1 else 0;
      FormatOk(f[2..], |args| - taken) &&
      Format(f, args) == DirectiveText(f[1], args) + Format(f[2..], args[taken..])
  {
    if f[1] != 's' {
      assert args[0..] == args;
    }
  }

  /** The directive at position `i` of a format: what it stands for, then
      the rest of the format after it. */
  lemma DirectiveAt(format: string, i: nat, args: seq<string>)
    requires i < |format| && format[i] == '%' && FormatOk(format[i..], |args|)
    ensures i + 1 < |format| && (format[i + 1] == 's' ==> |args| >= 1)
    ensures var taken := if format[i + 1] == 's' then 1 else 0;
      FormatOk(format[i + 2..], |args| - taken) &&
      Format(format[i..], args) == DirectiveText(format[i + 1], args) + Format(format[i + 2..], args[taken..])
  {
    DirectiveShape(format, i, args);
    DirectiveUnfold(format, i, args);
  }

  /** A well-formed directive has its letter, and the rest of the format is
      well-formed for the arguments left after it. */
  lemma DirectiveShape(format: string, i: nat, args: seq<string>)
    requires i < |format| && format[i] == '%' && FormatOk(format[i..], |args|)
    ensures i + 1 < |format| && (format[i + 1] == 's' ==> |args| >= 1)
    ensures FormatOk(format[i + 2..], |args| - if format[i + 1] == 's' then 1 else 0)
  {
    var f := format[i..];
    FormatDirective(f, args);
    assert f[1] == format[i + 1] && f[2..] == format[i + 2..];
  }

  /** One directive of a well-formed format unfolds into its text. */
  lemma DirectiveUnfold(format: string, i: nat, args: seq<string>)
    requires i + 1 < |format| && format[i] == '%' && FormatOk(format[i..], |args|)
    requires format[i + 1] == 's' ==> |args| >= 1
    requires FormatOk(format[i + 2..], |args| - if format[i + 1] == 's' then 1 else 0)
    ensures Format(format[i..], args) ==
      DirectiveText(format[i + 1], args) + Format(format[i + 2..], args[if format[i + 1] == 's' then 1 else 0..])
  {
    var f := format[i..];
    FormatDirective(f, args);
    assert f[1] == format[i + 1] && f[2..] == format[i + 2..];
  }

  /** Text pushed in three pieces, followed by what remains, is the old
      text followed by the whole. */
  lemma Regroup(now: string, old0: string, run: string, directive: string, rest: string, whole: string)
    requires now == old0 + run + directive && whole == run + (directive + rest)
    ensures now + rest == old0 + whole
  {
  }

  /** The formatter at a `%` found at `i`, with the literal run since `last`
      pending and the arguments from `k` on left: the run, the directive,
      then the rest of the format with the arguments the directive left. */
  lemma ReplacementStep(format: string, last: nat, i: nat, args: seq<string>, k: nat)
    requires last <= i < |format| && format[i] == '%' && '%' !in format[last..i]
    requires k <= |args| && FormatOk(format[last..], |args| - k)
    ensures i + 1 < |format| && (format[i + 1] == 's' ==> k < |args|)
    ensures var next := if format[i + 1] == 's' then k + 1 else k;
      FormatOk(format[i + 2..], |args| - next) &&
      Format(format[last..], args[k..]) ==
        format[last..i] + (DirectiveText(format[i + 1], args[k..]) + Format(format[i + 2..], args[next..]))
  {
    PercentStep(format, last, i, args[k..]);
    DirectiveAt(format, i, args[k..]);
    DropDrop(args, k, if format[i + 1] == 's' then 1 else 0);
  }

  /** The formatter's view at a `%` found at `i`, with the literal run since
      `last` still pending. */
  lemma PercentStep(format: string, last: nat, i: nat, args: seq<string>)
    requires last <= i <= |format| && '%' !in format[last..i]
    requires FormatOk(format[last..], |args|)
    ensures FormatOk(format[i..], |args|)
    ensures Format(format[last..], args) == format[last..i] + Format(format[i..], args)
  {
    var rest := format[last..];
    assert rest[..i - last] == format[last..i];
    DropDrop(format, last, i - last);
    SplitAt(rest, format[last..i], format[i..], args);
  }

  /** A format that starts with a run free of '%' is that run, then the
      format after it. */
  lemma SplitAt(f: string, run: string, tail: string, args: seq<string>)
    requires |run| <= |f| && f[..|run|] == run && f[|run|..] == tail && '%' !in run
    requires FormatOk(f, |args|)
    ensures FormatOk(tail, |args|) && Format(f, args) == run + Format(tail, args)
  {
    FormatSplit(f, |run|, args);
  }

  /** `ggit_vector_push_sprintf_terminated`: the formatted text and one '\0'. */
  method PushSprintfTerminated(v: Vector<char>, format: string, args: seq<string>)
    requires v.Valid() && v.valueSize == 1
    requires '\0' !in format && FormatOk(format, |args|)
    modifies v, v.data
    ensures v.Valid() && v.Contents() == old(v.Contents()) + Format(format, args) + ['\0']
  {
    PushVsprintf(v, format, args);
    v.Push('\0');
  }
}
