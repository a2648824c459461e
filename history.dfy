/** The DBP history tracker: the normalisation of a task's `initial_k_sequence` seed into
    0/1 outcomes, the initial window of exactly max(1, k) outcomes, and the bounded deque
    append that records one job outcome. */
module History {
  import opened Types

  function Bit(b: bool): int {
    if b then 1 else 0
  }

  predicate AllBits(s: seq<int>) {
    forall i :: 0 <= i < |s| ==> s[i] == 0 || s[i] == 1
  }

  /** The outcome recorded when a job terminates: 0 for a missed deadline, 1 otherwise. */
  function OutcomeBit(exceededDeadline: bool): int {
    if exceededDeadline then 0 else 1
  }

  /** What one character of a seed string contributes: '1' and '0' stand for themselves,
      every other character is ignored. */
  function CharBits(c: char): seq<int> {
    if c == '1' then [1] else if c == '0' then [0] else []
  }

  /** The outcomes a seed string spells, read left to right. */
  function StrBits(s: string): (r: seq<int>)
    ensures |r| <= |s| && AllBits(r)
  {
    if s == [] then [] else StrBits(s[..|s| - 1]) + CharBits(s[|s| - 1])
  }

  /** The outcomes a seed list spells: each element by its truthiness. */
  function TruthBits(xs: seq<PyValue>): (r: seq<int>)
    ensures AllBits(r)
  {
    seq(|xs|, i requires 0 <= i < |xs| => Bit(Truthy(xs[i])))
  }

  /** The normalised seed: never empty, every entry 0 or 1. */
  function Normalized(initial: PyValue): (r: seq<int>)
    ensures r != [] && AllBits(r)
    ensures initial.PyNone? || initial.PyOther? ==> r == [1]
    ensures initial.PyBool? ==> r == [Bit(initial.b)]
    ensures initial.PyNum? ==> r == [Bit(initial.n != 0)]
  {
    match initial
    case PyNone => [1]
    case _ =>
      var raw :=
        match initial
        case PyStr(s) => StrBits(s)
        case PySeq(xs) => TruthBits(xs)
        case PyBool(b) => [Bit(b)]
        case PyNum(n) => [Bit(n != 0)]
        case _ => [1];
      if raw == [] then [1] else raw
  }

  /** The string loop of `_normalize_init_sequence`: appends 1 for '1', 0 for '0'. */
  method StrOutcomes(s: string) returns (result: seq<int>)
    ensures result == StrBits(s)
  {
    result := [];
    var i := 0;
    while i < |s|
      invariant 0 <= i <= |s|
      invariant result == StrBits(s[..i])
    {
      assert s[..i + 1][..i] == s[..i];
      if s[i] == '1' {
        result := result + [1];
      } else if s[i] == '0' {
        result := result + [0];
      }
      i := i + 1;
    }
    assert s[..|s|] == s;
  }

  /** The sequence loop of `_normalize_init_sequence`: one outcome per element, by its
      truthiness. */
  method ListOutcomes(xs: seq<PyValue>) returns (result: seq<int>)
    ensures result == TruthBits(xs)
  {
    result := [];
    var i := 0;
    while i < |xs|
      invariant 0 <= i <= |xs|
      invariant result == TruthBits(xs[..i])
    {
      result := result + [if Truthy(xs[i]) then 1 else 0];
      i := i + 1;
    }
    assert xs[..|xs|] == xs;
  }

  /** `_normalize_init_sequence`. */
  method NormalizeInitSequence(initial: PyValue) returns (result: seq<int>)
    ensures result == Normalized(initial)
  {
    if initial.PyNone? {
      return [1];
    }
    match initial {
      case PyStr(s) =>
        result := StrOutcomes(s);
      case PySeq(xs) =>
        result := ListOutcomes(xs);
      case PyBool(b) =>
        result := [if b then 1 else 0];
      case PyNum(n) =>
        result := [if n != 0 then 1 else 0];
      case PyOther(_) =>
        result := [1];
    }
    if result == [] {
      result := [1];
    }
  }

  /** The seed string that spells the outcomes `bits`. */
  function BitsToStr(bits: seq<int>): (s: string)
    ensures |s| == |bits|
  {
    seq(|bits|, i requires 0 <= i < |bits| => if bits[i] == 1 then '1' else '0')
  }

  /** The seed list `[b0, b1, ...]` of Python integers. */
  function BitsToList(bits: seq<int>): (xs: seq<PyValue>)
    ensures |xs| == |bits|
  {
    seq(|bits|, i requires 0 <= i < |bits| => PyNum(bits[i]))
  }

  /** The string branch is a homomorphism: a seed string's outcomes are its pieces'
      outcomes, concatenated. */
  lemma {:induction false} StrBitsAppend(s: string, t: string)
    ensures StrBits(s + t) == StrBits(s) + StrBits(t)
    decreases |t|
  {
    if t != [] {
      var t' := t[..|t| - 1];
      assert (s + t)[..|s + t| - 1] == s + t';
      assert (s + t)[|s + t| - 1] == t[|t| - 1];
      StrBitsAppend(s, t');
    } else {
      assert s + t == s;
    }
  }

  /** A string keeps exactly its '0' and '1' characters, in order: spelling outcomes as a
      string and normalising gives them back. */
  lemma {:induction false} StrBitsRoundTrip(bits: seq<int>)
    requires AllBits(bits)
    ensures StrBits(BitsToStr(bits)) == bits
    decreases |bits|
  {
    if bits != [] {
      var b' := bits[..|bits| - 1];
      assert BitsToStr(bits)[..|bits| - 1] == BitsToStr(b');
      StrBitsRoundTrip(b');
      assert bits == b' + [bits[|bits| - 1]];
    }
  }

  /** Normalisation is idempotent: an already normalised (non-empty, 0/1) list, given as
      a seed list or as a seed string, normalises to itself. */
  lemma NormalizeIdempotent(bits: seq<int>)
    requires bits != [] && AllBits(bits)
    ensures Normalized(PySeq(BitsToList(bits))) == bits
    ensures Normalized(PyStr(BitsToStr(bits))) == bits
  {
    assert TruthBits(BitsToList(bits)) == bits;
    StrBitsRoundTrip(bits);
  }

  lemma NormalizeNormalized(initial: PyValue)
    ensures Normalized(PySeq(BitsToList(Normalized(initial)))) == Normalized(initial)
  {
    NormalizeIdempotent(Normalized(initial));
  }

  /** The deque length `max(1, k)`. */
  function Window(t: Task): (n: nat)
    ensures n >= 1 && n >= t.k
  {
    if t.k < 1 then 1 else t.k
  }

  function Ones(n: nat): (s: seq<int>)
    ensures |s| == n && forall i :: 0 <= i < n ==> s[i] == 1
  {
    seq(n, _ => 1)
  }

  /** `deque(maxlen=maxlen).append(x)`: when the deque is full the oldest entry is dropped.
      The result is the longest suffix of `d + [x]` that fits. */
  function DequeAppend(d: seq<int>, x: int, maxlen: nat): (r: seq<int>)
    requires |d| <= maxlen
    ensures |r| == if |d| < maxlen then |d| + 1 else maxlen
    ensures r == (d + [x])[|d| + 1 - |r|..]
  {
    if |d| < maxlen then d + [x] else if maxlen == 0 then [] else d[1..] + [x]
  }

  /** The initial window of a task: the last max(1, k) normalised seed outcomes, left-padded
      with successes. */
  function InitialHistory(t: Task): (h: seq<int>)
    ensures |h| == Window(t) && AllBits(h)
    ensures var v := Normalized(t.seed);
            if |v| >= Window(t) then h == v[|v| - Window(t)..]
            else h == Ones(Window(t) - |v|) + v
  {
    var values := Normalized(t.seed);
    var k := Window(t);
    var start := if |values| > k then |values| - k else 0;
    var tail := values[start..];
    Ones(k - |tail|) + tail
  }

  /** The window `InitialHistory` describes, given the normalised seed and the deque
      length: the kept suffix `tail`, left-padded with successes. */
  lemma InitialHistoryFrom(t: Task, values: seq<int>, tail: seq<int>)
    requires values == Normalized(t.seed)
    requires tail == values[if |values| > Window(t) then |values| - Window(t) else 0..]
    ensures |tail| <= Window(t)
    ensures InitialHistory(t) == Ones(Window(t) - |tail|) + tail
  {
  }

  /** The append loop of `_init_history`: `values` pushed one by one onto an empty deque
      of length `k`, which they fit. */
  method FillDeque(values: seq<int>, k: nat) returns (history: seq<int>)
    requires |values| <= k
    ensures history == values
  {
    history := [];
    var i := 0;
    while i < |values|
      invariant 0 <= i <= |values|
      invariant history == values[..i]
    {
      assert values[..i + 1] == values[..i] + [values[i]];
      history := DequeAppend(history, values[i], k);
      i := i + 1;
    }
    assert values[..|values|] == values;
  }

  /** The padding loop of `_init_history`: `appendleft(1)` until the deque is full. */
  method PadWithSuccesses(d: seq<int>, k: nat) returns (history: seq<int>)
    requires |d| <= k
    ensures history == Ones(k - |d|) + d
  {
    history := d;
    while |history| < k
      invariant |d| <= |history| <= k
      invariant history == Ones(|history| - |d|) + d
      decreases k - |history|
    {
      assert [1] + Ones(|history| - |d|) == Ones(|history| + 1 - |d|);
      history := [1] + history;
    }
  }

  /** `_init_history`: appends the kept suffix to an empty deque, then pads on the left. */
  method InitHistory(task: Task) returns (history: seq<int>)
    ensures history == InitialHistory(task)
  {
    var k := if 1 < task.k then task.k else 1;
    var values := NormalizeInitSequence(task.seed);
    var sliceStart := if 0 < |values| - k then |values| - k else 0;
    var tail := values[sliceStart..];
    InitialHistoryFrom(task, values, tail);
    history := FillDeque(tail, k);
    history := PadWithSuccesses(history, k);
  }

  /** A history that is already a valid window, given back as the seed, initialises to
      itself. */
  lemma InitialHistoryIdempotent(t: Task, h: seq<int>)
    requires |h| == Window(t) && AllBits(h)
    requires t.seed == PySeq(BitsToList(h))
    ensures InitialHistory(t) == h
  {
    NormalizeIdempotent(h);
  }

  /** The seed "1010" with k = 4 gives the window [1, 0, 1, 0]. */
  lemma InitialHistoryExample()
    ensures InitialHistory(Task(0, 2, 4, PyStr("1010"))) == [1, 0, 1, 0]
  {
    var bits := [1, 0, 1, 0];
    assert BitsToStr(bits) == "1010";
    NormalizeIdempotent(bits);
    var v := Normalized(PyStr("1010"));
    assert v[|v| - 4..] == v;
  }

  /** Characters other than '0' and '1' are ignored. */
  lemma StrBitsIgnoresOthers()
    ensures StrBits("x0110") == [0, 1, 1, 0]
  {
    assert StrBits("x") == [] by { assert "x"[..0] == ""; }
    assert StrBits("x0") == [0] by { assert "x0"[..1] == "x"; }
    assert StrBits("x01") == [0, 1] by { assert "x01"[..2] == "x0"; }
    assert StrBits("x011") == [0, 1, 1] by { assert "x011"[..3] == "x01"; }
    assert "x0110"[..4] == "x011";
  }

  /** Only the last k outcomes of the seed are kept. */
  lemma InitialHistoryTruncates()
    ensures InitialHistory(Task(0, 1, 2, PyStr("x0110"))) == [1, 0]
  {
    StrBitsIgnoresOthers();
    var v := Normalized(PyStr("x0110"));
    assert v[|v| - 2..] == [1, 0];
  }
}
