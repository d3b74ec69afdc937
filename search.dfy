/**
  * The greedy search engine of tactf.py: `find_char_at` (lines 51-66),
  * `find_length` (lines 69-82) and `find_string` (lines 84-107).
  *
  * The instruction-count measurement is an `Oracle`: a deterministic function
  * from the candidate fed to the target to an instruction count, or `None`
  * when the profiler's output held no count.
  */
module Search {
  import opened Wrappers
  import opened Charsets

  type Oracle = string -> Option<nat>

  // ---------------------------------------------------------------------
  // Running maximum with first-wins ties (shared by find_char_at and find_length)
  // ---------------------------------------------------------------------

  /** `vals[k]` is a reading above `floor`, no reading is above it, and every
      reading before it is strictly below it: the first maximiser. */
  predicate IsFirstArgmax(vals: seq<Option<nat>>, floor: int, k: int) {
    && 0 <= k < |vals|
    && vals[k].Some? && vals[k].value > floor
    && (forall j :: 0 <= j < |vals| && vals[j].Some? ==> vals[j].value <= vals[k].value)
    && (forall j :: 0 <= j < k && vals[j].Some? ==> vals[j].value < vals[k].value)
  }

  /** No reading exceeds `floor` (absent readings never do). */
  predicate NoneAbove(vals: seq<Option<nat>>, floor: int) {
    forall j :: 0 <= j < |vals| && vals[j].Some? ==> vals[j].value <= floor
  }

  /** The index a loop `if val is not None and val > maximum: maximum = val`
      ends on, with `maximum` starting at `floor`: -1 when nothing beat it. */
  function RunMax(vals: seq<Option<nat>>, floor: int): (k: int)
    ensures -1 <= k < |vals|
    ensures k == -1 <==> NoneAbove(vals, floor)
    ensures k >= 0 ==> IsFirstArgmax(vals, floor, k)
    decreases |vals|
  {
    if vals == [] then -1
    else
      var n := |vals| - 1;
      var k := RunMax(vals[..n], floor);
      var best := if k < 0 then floor else vals[..n][k].value;
      var v := vals[n];
      assert forall j :: 0 <= j < n ==> vals[..n][j] == vals[j];
      if v.Some? && v.value > best then n else k
  }

  /** One more reading: the running maximum moves to it exactly when it is
      present and strictly above the best so far. */
  lemma RunMaxStep(vals: seq<Option<nat>>, floor: int, i: nat)
    requires i < |vals|
    ensures var k := RunMax(vals[..i], floor);
            var best := if k < 0 then floor else vals[k].value;
            RunMax(vals[..i + 1], floor)
              == if vals[i].Some? && vals[i].value > best then i else k
  {
    assert vals[..i + 1][..i] == vals[..i];
    var k := RunMax(vals[..i], floor);
    if k >= 0 {
      assert vals[..i][k] == vals[k];
    }
  }

  // ---------------------------------------------------------------------
  // find_char_at
  // ---------------------------------------------------------------------

  /** `s[:loc] + c + s[loc+1:]`, with Python's clamping of slice bounds. */
  function Splice(s: string, loc: nat, c: char): (r: string)
    ensures |r| > 0
    ensures loc < |s| ==> |r| == |s| && r[loc] == c && forall j :: 0 <= j < |s| && j != loc ==> r[j] == s[j]
    ensures loc >= |s| ==> r == s + [c]
  {
    var lo := if loc <= |s| then loc else |s|;
    var hi := if loc + 1 <= |s| then loc + 1 else |s|;
    s[..lo] + [c] + s[hi..]
  }

  /** The reading for each character of `cs` put at `loc`. */
  function Trials(s: string, loc: nat, cs: string, measure: Oracle): (vals: seq<Option<nat>>)
    ensures |vals| == |cs|
    ensures forall j :: 0 <= j < |cs| ==> vals[j] == measure(Splice(s, loc, cs[j]))
  {
    seq(|cs|, j requires 0 <= j < |cs| => measure(Splice(s, loc, cs[j])))
  }

  /** What `find_char_at(s, loc, ...)` returns: the trial for the first charset
      character whose reading is present and above every earlier one, or "" when
      no reading is above 0. Its meaning is stated by `ResolveCharIsFirstArgmax`
      and `ResolveCharShape`. */
  function ResolveChar(s: string, loc: nat, code: int, measure: Oracle): string {
    var cs := Charset(code);
    var k := RunMax(Trials(s, loc, cs, measure), 0);
    if k < 0 then "" else Splice(s, loc, cs[k])
  }

  /** `find_char_at` answers "" exactly when no reading is above 0, and otherwise
      the trial of the first charset character with the largest reading. */
  lemma ResolveCharIsFirstArgmax(s: string, loc: nat, code: int, measure: Oracle)
    ensures ResolveChar(s, loc, code, measure) == "" <==> NoneAbove(Trials(s, loc, Charset(code), measure), 0)
    ensures forall k :: IsFirstArgmax(Trials(s, loc, Charset(code), measure), 0, k) ==>
              ResolveChar(s, loc, code, measure) == Splice(s, loc, Charset(code)[k])
  {
    var vals := Trials(s, loc, Charset(code), measure);
    var k := RunMax(vals, 0);
    if k >= 0 {
      FirstArgmaxAll(vals, 0, k);
    }
  }

  /** A non-empty answer at a position inside the candidate has the candidate's
      length, a charset character at that position, and the candidate's
      characters everywhere else. */
  lemma ResolveCharShape(s: string, loc: nat, code: int, measure: Oracle)
    requires loc < |s|
    ensures var r := ResolveChar(s, loc, code, measure);
            r != "" ==>
              && |r| == |s|
              && r[loc] in Charset(code)
              && (forall j :: 0 <= j < |s| && j != loc ==> r[j] == s[j])
  {
  }

  /** The first maximiser is unique. */
  lemma FirstArgmaxAll(vals: seq<Option<nat>>, floor: int, k: int)
    requires IsFirstArgmax(vals, floor, k)
    ensures forall k' :: IsFirstArgmax(vals, floor, k') ==> k' == k
  {
  }

  /** `find_char_at`: scan the charset in order, keeping the trial whose reading
      is strictly above the best so far (which starts at 0). */
  method FindCharAt(s: string, loc: nat, measure: Oracle, code: int) returns (bestChoice: string)
    ensures bestChoice == ResolveChar(s, loc, code, measure)
    ensures bestChoice == "" <==> NoneAbove(Trials(s, loc, Charset(code), measure), 0)
    ensures forall k :: IsFirstArgmax(Trials(s, loc, Charset(code), measure), 0, k) ==>
              bestChoice == Splice(s, loc, Charset(code)[k])
  {
    var charset := Charset(code);
    ghost var vals := Trials(s, loc, charset, measure);
    ghost var bi := -1;
    var maximum: nat := 0;
    bestChoice := "";
    for i := 0 to |charset|
      invariant bi == RunMax(vals[..i], 0)
      invariant maximum == if bi < 0 then 0 else vals[bi].value
      invariant bestChoice == if bi < 0 then "" else Splice(s, loc, charset[bi])
    {
      RunMaxStep(vals, 0, i);
      var test := Splice(s, loc, charset[i]);
      var val := measure(test);
      if val.Some? {
        if val.value > maximum {
          maximum := val.value;
          bestChoice := test;
          bi := i;
        }
      }
    }
    assert vals[..|charset|] == vals;
    ResolveCharIsFirstArgmax(s, loc, code, measure);
  }

  // ---------------------------------------------------------------------
  // find_length
  // ---------------------------------------------------------------------

  /** `c * n` in Python: empty when `n <= 0`. */
  function Repeat(c: char, n: int): (r: string)
    ensures |r| == if n > 0 then n else 0
    ensures forall j :: 0 <= j < |r| ==> r[j] == c
  {
    if n <= 0 then "" else Repeat(c, n - 1) + [c]
  }

  /** The reading for the probe "a"*i. */
  function ProbeReading(measure: Oracle, i: int): Option<nat> {
    measure(Repeat('a', i))
  }

  /** The readings of the probes "a"*i for i in 1..maxlen, at index i - 1. */
  function Probes(measure: Oracle, maxlen: int): (vals: seq<Option<nat>>)
    ensures |vals| == if maxlen > 0 then maxlen else 0
    ensures forall j :: 0 <= j < |vals| ==> vals[j] == ProbeReading(measure, j + 1)
  {
    var n := if maxlen > 0 then maxlen else 0;
    seq(n, j requires 0 <= j < n => ProbeReading(measure, j + 1))
  }

  /** What `find_length` returns: the first length with the largest reading, -1
      when no probe had a reading, and `None` ("inconclusive") when the baseline
      `measure("a")` equals that largest reading. Its meaning is stated by
      `InferLengthIsFirstArgmax`. */
  function InferLength(measure: Oracle, maxlen: int): Option<int> {
    var vals := Probes(measure, maxlen);
    var k := RunMax(vals, -1);
    var maximum: int := if k < 0 then -1 else vals[k].value;
    var length := if k < 0 then -1 else k + 1;
    // `init_counts != maximum`: a missing baseline is never equal to an int
    if measure("a").Some? && measure("a").value == maximum then None else Some(length)
  }

  /** `find_length` answers -1 when no probe has a reading; otherwise the length
      of the first probe with the largest reading, or `None` exactly when the
      baseline equals that reading. */
  lemma InferLengthIsFirstArgmax(measure: Oracle, maxlen: int)
    ensures NoneAbove(Probes(measure, maxlen), -1) ==> InferLength(measure, maxlen) == Some(-1)
    ensures forall k :: IsFirstArgmax(Probes(measure, maxlen), -1, k) ==>
              var r := InferLength(measure, maxlen);
              && (r.None? <==> measure("a") == Some(Probes(measure, maxlen)[k].value))
              && (r.Some? ==> r.value == k + 1)
  {
    var vals := Probes(measure, maxlen);
    var k := RunMax(vals, -1);
    if k >= 0 {
      FirstArgmaxAll(vals, -1, k);
    }
  }

  /** `find_length`: probe "a"*i for i in 1..maxlen, keeping the first length
      whose reading is strictly above the best so far (which starts at -1). */
  method FindLength(measure: Oracle, maxlen: int) returns (r: Option<int>)
    ensures r == InferLength(measure, maxlen)
  {
    ghost var vals := Probes(measure, maxlen);
    ghost var bi := -1;
    var maximum: int := -1;
    var initCounts := measure("a");
    var length := -1;
    var i := 1;
    while i <= maxlen
      invariant 1 <= i && (maxlen >= 0 ==> i <= maxlen + 1) && (maxlen < 0 ==> i == 1)
      invariant bi == RunMax(vals[..i - 1], -1)
      invariant maximum == if bi < 0 then -1 else vals[bi].value
      invariant length == if bi < 0 then -1 else bi + 1
    {
      RunMaxStep(vals, -1, i - 1);
      var val := measure(Repeat('a', i));
      assert val == vals[i - 1];
      if val.Some? {
        if val.value > maximum {
          maximum := val.value;
          length := i;
          bi := i - 1;
        }
      }
      i := i + 1;
    }
    assert vals[..i - 1] == vals;
    if initCounts.Some? && initCounts.value == maximum {
      r := None;
    } else {
      r := Some(length);
    }
  }

  /** With a reading for "a", the result is inconclusive exactly when the first
      maximiser is the length-1 probe, which is "a" itself. */
  lemma InconclusiveIffFirstIsOne(measure: Oracle, maxlen: int, k: int)
    requires measure("a").Some?
    requires IsFirstArgmax(Probes(measure, maxlen), -1, k)
    ensures InferLength(measure, maxlen).None? <==> k == 0
  {
    InferLengthIsFirstArgmax(measure, maxlen);
    var vals := Probes(measure, maxlen);
    assert Repeat('a', 1) == "a";
    assert vals[0] == measure("a");
  }

  /** A flat signal (the same reading for every probe) is reported as inconclusive. */
  lemma FlatSignalInconclusive(measure: Oracle, maxlen: int, v: nat)
    requires maxlen >= 1
    requires forall i :: 1 <= i <= maxlen ==> ProbeReading(measure, i) == Some(v)
    ensures InferLength(measure, maxlen) == None
  {
    var vals := Probes(measure, maxlen);
    assert Repeat('a', 1) == "a";
    assert IsFirstArgmax(vals, -1, 0);
    InconclusiveIffFirstIsOne(measure, maxlen, 0);
  }

  /** A reading that grows strictly up to length `len` and never exceeds that
      peak beyond it yields `len`, unless `len` is 1, which is inconclusive. */
  lemma PeakGivesLength(measure: Oracle, maxlen: int, len: int)
    requires 1 <= len <= maxlen
    requires forall i :: 1 <= i <= maxlen ==> ProbeReading(measure, i).Some?
    requires forall i, j :: 1 <= i < j <= len ==>
               ProbeReading(measure, i).value < ProbeReading(measure, j).value
    requires forall i :: len < i <= maxlen ==>
               ProbeReading(measure, i).value <= ProbeReading(measure, len).value
    ensures InferLength(measure, maxlen) == if len == 1 then None else Some(len)
  {
    var vals := Probes(measure, maxlen);
    var k := len - 1;
    assert IsFirstArgmax(vals, -1, k);
    assert Repeat('a', 1) == "a";
    assert ProbeReading(measure, 1).Some?;
    InconclusiveIffFirstIsOne(measure, maxlen, k);
    InferLengthIsFirstArgmax(measure, maxlen);
    var r := InferLength(measure, maxlen);
    assert r.Some? ==> r.value == len;
    assert r.None? <==> len == 1;
  }

  // ---------------------------------------------------------------------
  // find_string
  // ---------------------------------------------------------------------

  /** `flag_format + 'a'*(length - len(flag_format))`. */
  function Seed(flagFormat: string, length: int): (c: string)
    ensures |c| == if length > |flagFormat| then length else |flagFormat|
    ensures c[..|flagFormat|] == flagFormat
    ensures forall j :: |flagFormat| <= j < |c| ==> c[j] == 'a'
  {
    flagFormat + Repeat('a', length - |flagFormat|)
  }

  /** The positions `find_char_at` is called with, in call order:
      `range(start, end)`, or `range(end - 1, start - 1, -1)` in reverse mode;
      empty when `end <= start`. */
  function Positions(start: nat, end: int, reverse: bool): (ps: seq<nat>)
    ensures |ps| == if end > start then end - start else 0
    ensures forall j :: 0 <= j < |ps| ==> start <= ps[j] < end
    ensures forall j :: 0 <= j < |ps| ==> ps[j] == if reverse then end - 1 - j else start + j
  {
    var n := if end > start then end - start else 0;
    if reverse then seq(n, j requires 0 <= j < n => end - 1 - j)
    else seq(n, j requires 0 <= j < n => start + j)
  }

  /** The last candidate of a trace, or the seed before any step. */
  function Current(seed: string, trace: seq<string>): string {
    if trace == [] then seed else trace[|trace| - 1]
  }

  /** The candidates printed after each step: each step replaces the whole
      candidate by what `find_char_at` returns at the next position. */
  function Sweep(measure: Oracle, code: int, seed: string, ps: seq<nat>): (trace: seq<string>)
    ensures |trace| == |ps|
    decreases |ps|
  {
    if ps == [] then []
    else
      var prev := Sweep(measure, code, seed, ps[..|ps| - 1]);
      prev + [ResolveChar(Current(seed, prev), ps[|ps| - 1], code, measure)]
  }

  /** One more position extends the trace by the step at that position. */
  lemma SweepStep(measure: Oracle, code: int, seed: string, ps: seq<nat>, k: nat)
    requires k < |ps|
    ensures Sweep(measure, code, seed, ps[..k + 1])
         == Sweep(measure, code, seed, ps[..k])
            + [ResolveChar(Current(seed, Sweep(measure, code, seed, ps[..k])), ps[k], code, measure)]
  {
    assert ps[..k + 1][..k] == ps[..k];
  }

  /** `find_string`: resolve the length (or take the given one), seed the
      candidate, then resolve each position in order. `r` is `None` where the
      source exits because the length could not be guessed; `trace` is the
      sequence of candidates the source prints. */
  method FindString(measure: Oracle, maxlen: int, reverse: bool, lengthGiven: bool,
                    length: int, code: int, flagFormat: string)
    returns (r: Option<string>, trace: seq<string>)
    ensures var len := if lengthGiven then Some(length) else InferLength(measure, maxlen);
            if len.None? then r.None? && trace == []
            else
              var seed := Seed(flagFormat, len.value);
              && trace == Sweep(measure, code, seed, Positions(|flagFormat|, len.value, reverse))
              && r == Some(Current(seed, trace))
  {
    var len := length;
    trace := [];
    if !lengthGiven {
      var guess := FindLength(measure, maxlen);
      if guess.None? {
        r := None;
        return;
      }
      len := guess.value;
    }
    var seed := Seed(flagFormat, len);
    // the two `range` loops differ only in the range they walk
    var candidate;
    candidate, trace := SweepPositions(measure, code, seed, Positions(|flagFormat|, len, reverse));
    r := Some(candidate);
  }

  /** The loop of `find_string`: resolve each position in turn, replacing the
      whole candidate by what `find_char_at` returns and recording it. */
  method SweepPositions(measure: Oracle, code: int, seed: string, positions: seq<nat>)
    returns (candidate: string, trace: seq<string>)
    ensures trace == Sweep(measure, code, seed, positions)
    ensures candidate == Current(seed, trace)
  {
    candidate := seed;
    trace := [];
    for k := 0 to |positions|
      invariant trace == Sweep(measure, code, seed, positions[..k])
      invariant candidate == Current(seed, trace)
    {
      var i := positions[k];
      SweepStep(measure, code, seed, positions, k);
      candidate := FindCharAt(candidate, i, measure, code);
      trace := trace + [candidate];
    }
    assert positions[..|positions|] == positions;
  }

  /** No step of the trace came back "". */
  predicate NoEmptyStep(trace: seq<string>) {
    forall j :: 0 <= j < |trace| ==> trace[j] != ""
  }

  /** `cur` has the seed's length, the seed's character at every position not
      in `ps`, and a character of `cs` at every position in `ps`. */
  predicate Shaped(seed: string, cur: string, ps: seq<nat>, cs: string) {
    && |cur| == |seed|
    && (forall j :: 0 <= j < |ps| ==> ps[j] < |seed|)
    && (forall j :: 0 <= j < |seed| && j !in ps ==> cur[j] == seed[j])
    && (forall j :: 0 <= j < |ps| ==> cur[ps[j]] in cs)
  }

  /** While no step comes back "", each step changes only its own position and
      leaves a charset character there: the candidate keeps its length, every
      position not visited keeps its seed character, and every visited position
      holds a charset character at the end. */
  lemma {:induction false} SweepKeepsShape(measure: Oracle, code: int, seed: string, ps: seq<nat>)
    requires forall j :: 0 <= j < |ps| ==> ps[j] < |seed|
    requires forall i, j :: 0 <= i < j < |ps| ==> ps[i] != ps[j]
    requires NoEmptyStep(Sweep(measure, code, seed, ps))
    ensures Shaped(seed, Current(seed, Sweep(measure, code, seed, ps)), ps, Charset(code))
    decreases |ps|
  {
    if ps != [] {
      var n := |ps| - 1;
      var front := ps[..n];
      var prev := Sweep(measure, code, seed, front);
      var before := Current(seed, prev);
      var after := ResolveChar(before, ps[n], code, measure);
      assert Sweep(measure, code, seed, ps) == prev + [after];
      assert NoEmptyStep(prev) by {
        forall j | 0 <= j < |prev| ensures prev[j] != "" {
          assert prev[j] == (prev + [after])[j];
        }
      }
      SweepKeepsShape(measure, code, seed, front);
      assert after == (prev + [after])[n];
      ResolveCharShape(before, ps[n], code, measure);
      StepKeepsShape(seed, before, ps, after, Charset(code));
    }
  }

  /** One step that rewrites only the last position of `ps` with a character of
      `cs` keeps the candidate shaped. */
  lemma StepKeepsShape(seed: string, before: string, ps: seq<nat>, after: string, cs: string)
    requires ps != [] && ps[|ps| - 1] < |seed|
    requires forall i :: 0 <= i < |ps| - 1 ==> ps[i] != ps[|ps| - 1]
    requires Shaped(seed, before, ps[..|ps| - 1], cs)
    requires |after| == |before| && after[ps[|ps| - 1]] in cs
    requires forall j :: 0 <= j < |after| && j != ps[|ps| - 1] ==> after[j] == before[j]
    ensures Shaped(seed, after, ps, cs)
  {
    var n := |ps| - 1;
    var front := ps[..n];
    forall j | 0 <= j < |ps| ensures ps[j] < |seed| {
      if j < n {
        assert ps[j] == front[j];
      }
    }
    forall j | 0 <= j < |seed| && j !in ps ensures after[j] == seed[j] {
      assert j != ps[n] && j !in front;
    }
    forall j | 0 <= j < |ps| ensures after[ps[j]] in cs {
      if j < n {
        assert ps[j] == front[j];
      }
    }
  }

  /** The answer of `find_string` for a resolved length `len`: when no step came
      back "", it has length `len`, starts with the flag format, and holds a
      charset character at every position after it, in either direction. */
  lemma SearchResultShape(measure: Oracle, code: int, flagFormat: string, len: int, reverse: bool)
    requires |flagFormat| <= len
    requires NoEmptyStep(Sweep(measure, code, Seed(flagFormat, len), Positions(|flagFormat|, len, reverse)))
    ensures var answer := Current(Seed(flagFormat, len),
                                  Sweep(measure, code, Seed(flagFormat, len), Positions(|flagFormat|, len, reverse)));
            && |answer| == len
            && answer[..|flagFormat|] == flagFormat
            && (forall j :: |flagFormat| <= j < len ==> answer[j] in Charset(code))
  {
    var seed := Seed(flagFormat, len);
    var ps := Positions(|flagFormat|, len, reverse);
    forall i, j | 0 <= i < j < |ps| ensures ps[i] != ps[j] {
      PositionsStrict(|flagFormat|, len, reverse, i, j);
    }
    SweepKeepsShape(measure, code, seed, ps);
    ShapedAnswer(flagFormat, len, reverse, Current(seed, Sweep(measure, code, seed, ps)), Charset(code));
  }

  /** A candidate shaped over the seed and the positions after the flag format
      has length `len`, starts with the flag format and holds a character of
      `cs` everywhere after it. */
  lemma ShapedAnswer(flagFormat: string, len: int, reverse: bool, answer: string, cs: string)
    requires |flagFormat| <= len
    requires Shaped(Seed(flagFormat, len), answer, Positions(|flagFormat|, len, reverse), cs)
    ensures |answer| == len
    ensures answer[..|flagFormat|] == flagFormat
    ensures forall j :: |flagFormat| <= j < len ==> answer[j] in cs
  {
    var seed := Seed(flagFormat, len);
    var ps := Positions(|flagFormat|, len, reverse);
    forall j | 0 <= j < |flagFormat| ensures answer[j] == flagFormat[j] {
      assert j !in ps;
      assert seed[j] == seed[..|flagFormat|][j];
    }
    forall j | |flagFormat| <= j < len ensures answer[j] in cs {
      var k := if reverse then len - 1 - j else j - |flagFormat|;
      assert ps[k] == j;
    }
  }

  /** Positions strictly ascend, or strictly descend in reverse mode, so none
      is visited twice. */
  lemma PositionsStrict(start: nat, end: int, reverse: bool, i: int, j: int)
    requires 0 <= i < j < |Positions(start, end, reverse)|
    ensures !reverse ==> Positions(start, end, reverse)[i] < Positions(start, end, reverse)[j]
    ensures reverse ==> Positions(start, end, reverse)[i] > Positions(start, end, reverse)[j]
  {
  }

  /** Once a step has come back "", the next one works on the empty string and
      its trial strings are single characters: the result is "" again or one
      charset character, not a candidate of the searched length. */
  lemma DegenerateStep(measure: Oracle, code: int, loc: nat)
    ensures var r := ResolveChar("", loc, code, measure);
            r == "" || (|r| == 1 && r[0] in Charset(code))
  {
  
  }
}
