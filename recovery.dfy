/**
  * Why the search works against the target of test/example.c: the
  * instruction count of the target, as tactf.py measures it, grows with the
  * number of leading characters of the candidate that match the flag. Under
  * that measurement `find_length` finds the flag's length and the forward
  * sweep of `find_string` recovers the flag one position at a time.
  *
  * The measurement is an affine function of the comparison work: a fixed
  * `base` for everything the target does besides the comparison, plus `unit`
  * for each test of the comparison's loop guard.
  */
module Recovery {
  import opened Wrappers
  import opened Charsets
  import opened Search
  import opened Target

  /** No newline and no NUL: the candidate reaches the target intact. */
  predicate Plain(t: string) {
    forall j :: 0 <= j < |t| ==> t[j] != '\n' && t[j] != '\0'
  }

  /** The measurement of candidate `t`: `echo` puts `t` and a newline on the
      target's standard input. */
  function TargetOracle(flag: string, base: nat, unit: nat): (measure: Oracle)
    requires |flag| < MaxInputLen
  {
    t => Reading(flag, base, unit, t)
  }

  /** The measurement of `t` against the target holding `flag`. */
  function Reading(flag: string, base: nat, unit: nat, t: string): Option<nat>
    requires |flag| < MaxInputLen
  {
    Some(base + unit * CompareWork(flag, t + "\n"))
  }

  /** Every charset character is printable, so candidates stay plain. */
  lemma CharsetPrintable(code: int)
    ensures forall j :: 0 <= j < |Charset(code)| ==> '!' <= Charset(code)[j] <= '~'
    ensures Plain(Charset(code))
  {
    var cs := Charset(code);
    forall j | 0 <= j < |cs| ensures '!' <= cs[j] <= '~' {
      var c := cs[j];
      assert InCharset(code, c);
      if c in Punctuation {
        var k :| 0 <= k < |Punctuation| && Punctuation[k] == c;
      }
    }
  }

  /** A string without NUL is measured whole by `strlen`. */
  lemma {:induction false} StrlenWhole(s: string)
    requires forall j :: 0 <= j < |s| ==> s[j] != '\0'
    ensures Strlen(s) == |s|
    decreases |s|
  {
    if s != [] {
      StrlenWhole(s[1..]);
    }
  }

  /** `fgets` on a line without a newline of its own: the whole line with its
      newline when it fits, the first `size - 1` characters otherwise. */
  lemma {:induction false} FgetsEchoed(t: string, size: nat)
    requires size >= 1
    requires forall j :: 0 <= j < |t| ==> t[j] != '\n'
    ensures Fgets(t + "\n", size) == if |t| + 1 < size then t + "\n" else t[..size - 1]
    decreases size
  {
    if size > 1 && t != [] {
      assert (t + "\n")[1..] == t[1..] + "\n";
      FgetsEchoed(t[1..], size - 1);
    }
  }

  /** The comparison work on a plain candidate: the comparison runs only on a
      candidate of the flag's length, and then its work is one more than the
      number of leading characters that match. */
  lemma EchoedWork(flag: string, t: string)
    requires |flag| + 3 <= MaxInputLen && Plain(flag) && Plain(t)
    ensures CompareWork(flag, t + "\n") == ProbeWork(flag, t)
  {
    StrlenWhole(flag);
    FgetsEchoed(t, MaxInputLen);
    var line := Fgets(t + "\n", MaxInputLen);
    StrlenWhole(line);
    CompareGate(flag, line);
    if |t| + 1 < MaxInputLen {
      assert line == t + "\n";
      assert Strlen(line) == |t| + 1;
      if |t| == |flag| {
        var m := MatchLength(flag, t, |flag|);
        assert line[..m] == t[..m];
        MatchLengthUnique(flag, line, |flag|, m);
      }
    } else {
      assert Strlen(line) == MaxInputLen - 1;
    }
  }

  /** The comparison work on a plain candidate `t`, as `EchoedWork` derives it
      from the target: one guard test more than the matching prefix when `t`
      has the flag's length, none otherwise. */
  function ProbeWork(flag: string, t: string): nat {
    if |t| == |flag| then MatchLength(flag, t, |flag|) + 1 else 0
  }

  /** `measure` reads `base` plus `unit` per guard test of the comparison, on
      every plain candidate. */
  ghost predicate AffineInWork(measure: Oracle, flag: string, base: nat, unit: nat) {
    forall t :: Plain(t) ==> measure(t) == Some(base + unit * ProbeWork(flag, t))
  }

  /** The measurement of the example target is affine in its comparison work. */
  lemma TargetOracleAffine(flag: string, base: nat, unit: nat)
    requires |flag| + 3 <= MaxInputLen && Plain(flag)
    ensures AffineInWork(TargetOracle(flag, base, unit), flag, base, unit)
  {
    forall t | Plain(t)
      ensures TargetOracle(flag, base, unit)(t) == Some(base + unit * ProbeWork(flag, t))
    {
      EchoedReading(flag, base, unit, t);
      OracleIsReading(flag, base, unit, t);
    }
  }

  lemma EchoedReading(flag: string, base: nat, unit: nat, t: string)
    requires |flag| + 3 <= MaxInputLen && Plain(flag) && Plain(t)
    ensures Reading(flag, base, unit, t) == Some(base + unit * ProbeWork(flag, t))
  {
    EchoedWork(flag, t);
  }

  lemma OracleIsReading(flag: string, base: nat, unit: nat, t: string)
    requires |flag| < MaxInputLen
    ensures TargetOracle(flag, base, unit)(t) == Reading(flag, base, unit, t)
  {
  }

  lemma AffineAt(measure: Oracle, flag: string, base: nat, unit: nat, t: string)
    requires AffineInWork(measure, flag, base, unit) && Plain(t)
    ensures measure(t) == Some(base + unit * ProbeWork(flag, t))
  {
  }

  /** More work, a larger reading. */
  lemma ScaleStrict(base: nat, unit: nat, a: nat, b: nat)
    requires unit > 0 && a < b
    ensures base + unit * a < base + unit * b
  {
    assert unit * b == unit * a + unit * (b - a);
  }

  // ---------------------------------------------------------------------
  // One position
  // ---------------------------------------------------------------------

  /** The reading for `target` at `loc` is present, above 0, and strictly above
      every present reading for another character of `cs`. */
  predicate Separates(measure: Oracle, s: string, loc: nat, target: char, cs: string) {
    && measure(Splice(s, loc, target)).Some?
    && measure(Splice(s, loc, target)).value > 0
    && forall c :: c in cs && c != target && measure(Splice(s, loc, c)).Some? ==>
         measure(Splice(s, loc, c)).value < measure(Splice(s, loc, target)).value
  }

  /** A measurement that separates the right character makes `find_char_at`
      put exactly that character at the position. */
  lemma ResolveCorrect(s: string, loc: nat, code: int, measure: Oracle, target: char)
    requires target in Charset(code)
    requires Separates(measure, s, loc, target, Charset(code))
    ensures ResolveChar(s, loc, code, measure) == Splice(s, loc, target)
  {
    var cs := Charset(code);
    var vals := Trials(s, loc, cs, measure);
    var k :| 0 <= k < |cs| && cs[k] == target;
    forall j | 0 <= j < |vals| && j != k && vals[j].Some?
      ensures vals[j].value < vals[k].value
    {
      if j < k {
        assert cs[j] != cs[k];
      } else {
        assert cs[k] != cs[j];
      }
      assert cs[j] in cs;
    }
    assert IsFirstArgmax(vals, 0, k);
    ResolveCharIsFirstArgmax(s, loc, code, measure);
  }

  // ---------------------------------------------------------------------
  // A whole sweep
  // ---------------------------------------------------------------------

  /** The seed with the secret's characters at the positions in `done`. */
  function Overlay(seed: string, secret: string, done: seq<nat>): (r: string)
    requires |secret| == |seed|
    ensures |r| == |seed|
  {
    seq(|seed|, j requires 0 <= j < |seed| => if j in done then secret[j] else seed[j])
  }

  /** If the measurement separates the secret's character at every position in
      turn, the sweep ends on the seed overlaid with the secret at every
      position it visited, whatever the order of the positions. */
  lemma {:induction false} SweepRecovers(measure: Oracle, code: int, seed: string, secret: string, ps: seq<nat>)
    requires |secret| == |seed|
    requires forall k :: 0 <= k < |ps| ==> ps[k] < |seed| && secret[ps[k]] in Charset(code)
    requires forall k :: 0 <= k < |ps| ==>
               Separates(measure, Overlay(seed, secret, ps[..k]), ps[k], secret[ps[k]], Charset(code))
    ensures Current(seed, Sweep(measure, code, seed, ps)) == Overlay(seed, secret, ps)
    decreases |ps|
  {
    if ps == [] {
      assert Overlay(seed, secret, ps) == seed;
    } else {
      var n := |ps| - 1;
      var front := ps[..n];
      assert forall k :: 0 <= k < |front| ==> front[..k] == ps[..k] && front[k] == ps[k];
      SweepRecovers(measure, code, seed, secret, front);
      var before := Overlay(seed, secret, front);
      assert Sweep(measure, code, seed, ps)
          == Sweep(measure, code, seed, front) + [ResolveChar(before, ps[n], code, measure)];
      ResolveCorrect(before, ps[n], code, measure, secret[ps[n]]);
      OverlayStep(seed, secret, ps);
    }
  }

  /** Putting the secret's character at one more position extends the overlay. */
  lemma OverlayStep(seed: string, secret: string, ps: seq<nat>)
    requires |secret| == |seed| && ps != [] && ps[|ps| - 1] < |seed|
    ensures Splice(Overlay(seed, secret, ps[..|ps| - 1]), ps[|ps| - 1], secret[ps[|ps| - 1]])
         == Overlay(seed, secret, ps)
  {
    var n := |ps| - 1;
    var front := ps[..n];
    assert ps == front + [ps[n]];
    var after := Splice(Overlay(seed, secret, front), ps[n], secret[ps[n]]);
    forall j | 0 <= j < |seed| ensures after[j] == Overlay(seed, secret, ps)[j] {
      assert j in ps <==> j in front || j == ps[n];
    }
  }

  // ---------------------------------------------------------------------
  // The example target
  // ---------------------------------------------------------------------

  /** At a position `i` whose prefix already matches the flag, the flag's own
      character gives the largest reading. */
  lemma PrefixSeparates(measure: Oracle, flag: string, cs: string, base: nat, unit: nat, s: string, i: nat)
    requires unit > 0 && AffineInWork(measure, flag, base, unit)
    requires Plain(s) && Plain(flag) && |s| == |flag| && i < |flag| && s[..i] == flag[..i]
    requires Plain(cs)
    ensures Separates(measure, s, i, flag[i], cs)
  {
    RightReading(measure, flag, base, unit, s, i);
    forall c | c in cs && c != flag[i] && measure(Splice(s, i, c)).Some?
      ensures measure(Splice(s, i, c)).value < measure(Splice(s, i, flag[i])).value
    {
      WrongReading(measure, flag, base, unit, s, i, c);
    }
  }

  /** The flag's own character at `i` makes at least `i + 1` characters match. */
  lemma RightReading(measure: Oracle, flag: string, base: nat, unit: nat, s: string, i: nat)
    requires unit > 0 && AffineInWork(measure, flag, base, unit)
    requires Plain(s) && Plain(flag) && |s| == |flag| && i < |flag| && s[..i] == flag[..i]
    ensures measure(Splice(s, i, flag[i])).Some?
    ensures measure(Splice(s, i, flag[i])).value > base + unit * (i + 1)
  {
    var right := Splice(s, i, flag[i]);
    assert right[..i] == s[..i];
    assert Plain(right);
    var mr := MatchLength(flag, right, |flag|);
    assert right[..i + 1] == flag[..i + 1];
    MatchLengthAtLeast(flag, right, |flag|, i + 1);
    assert ProbeWork(flag, right) == mr + 1;
    AffineAt(measure, flag, base, unit, right);
    ScaleStrict(base, unit, i + 1, mr + 1);
  }

  /** Any other character at `i` makes exactly `i` characters match. */
  lemma WrongReading(measure: Oracle, flag: string, base: nat, unit: nat, s: string, i: nat, c: char)
    requires AffineInWork(measure, flag, base, unit)
    requires Plain(s) && |s| == |flag| && i < |flag| && s[..i] == flag[..i]
    requires c != flag[i] && c != '\n' && c != '\0'
    ensures measure(Splice(s, i, c)) == Some(base + unit * (i + 1))
  {
    var wrong := Splice(s, i, c);
    assert wrong[..i] == flag[..i];
    assert Plain(wrong);
    MatchLengthUnique(flag, wrong, |flag|, i);
    assert ProbeWork(flag, wrong) == i + 1;
    AffineAt(measure, flag, base, unit, wrong);
  }

  /** The candidate before the `k`-th step of the forward sweep: the flag up to
      position `|flagFormat| + k`, the seed's 'a's after it. */
  lemma ForwardCandidate(flag: string, flagFormat: string, k: nat)
    requires |flagFormat| <= |flag| && flag[..|flagFormat|] == flagFormat
    requires k <= |flag| - |flagFormat|
    ensures var s := Overlay(Seed(flagFormat, |flag|), flag, Positions(|flagFormat|, |flag|, false)[..k]);
            forall j :: 0 <= j < |s| ==> s[j] == if j < |flagFormat| + k then flag[j] else 'a'
  {
    var seed := Seed(flagFormat, |flag|);
    var ps := Positions(|flagFormat|, |flag|, false);
    var i := |flagFormat| + k;
    var s := Overlay(seed, flag, ps[..k]);
    forall j | 0 <= j < |s| ensures s[j] == if j < i then flag[j] else 'a' {
      assert j in ps[..k] <==> |flagFormat| <= j < i by {
        if |flagFormat| <= j < i {
          assert ps[..k][j - |flagFormat|] == j;
        }
      }
      if j < |flagFormat| {
        assert seed[j] == seed[..|flagFormat|][j];
        assert flag[j] == flag[..|flagFormat|][j];
      }
    }
  }

  /** The forward sweep of `find_string`, started from the flag format, ends on
      the flag when the format is a prefix of the flag and every later character
      of the flag is in the charset. */
  lemma ForwardRecovers(measure: Oracle, flag: string, flagFormat: string, code: int, base: nat, unit: nat)
    requires unit > 0 && Plain(flag) && AffineInWork(measure, flag, base, unit)
    requires |flagFormat| <= |flag| && flag[..|flagFormat|] == flagFormat
    requires forall j :: |flagFormat| <= j < |flag| ==> flag[j] in Charset(code)
    ensures var seed := Seed(flagFormat, |flag|);
            Current(seed, Sweep(measure, code, seed, Positions(|flagFormat|, |flag|, false))) == flag
  {
    var seed := Seed(flagFormat, |flag|);
    var ps := Positions(|flagFormat|, |flag|, false);
    forall k | 0 <= k < |ps|
      ensures Separates(measure, Overlay(seed, flag, ps[..k]), ps[k], flag[ps[k]], Charset(code))
    {
      CharsetPrintable(code);
      ForwardStep(measure, flag, flagFormat, Charset(code), base, unit, k);
    }
    SweepRecovers(measure, code, seed, flag, ps);
    ForwardDone(flag, flagFormat);
  }

  /** Once every position after the format is visited, the overlay is the flag. */
  lemma ForwardDone(flag: string, flagFormat: string)
    requires |flagFormat| <= |flag| && flag[..|flagFormat|] == flagFormat
    ensures Overlay(Seed(flagFormat, |flag|), flag, Positions(|flagFormat|, |flag|, false)) == flag
  {
    var ps := Positions(|flagFormat|, |flag|, false);
    ForwardCandidate(flag, flagFormat, |ps|);
    assert ps[..|ps|] == ps;
  }

  /** Each step of the forward sweep finds the flag's character separated. */
  lemma ForwardStep(measure: Oracle, flag: string, flagFormat: string, cs: string, base: nat, unit: nat, k: nat)
    requires unit > 0 && Plain(flag) && Plain(cs) && AffineInWork(measure, flag, base, unit)
    requires |flagFormat| <= |flag| && flag[..|flagFormat|] == flagFormat
    requires k < |flag| - |flagFormat|
    ensures var ps := Positions(|flagFormat|, |flag|, false);
            Separates(measure, Overlay(Seed(flagFormat, |flag|), flag, ps[..k]), ps[k], flag[ps[k]], cs)
  {
    var ps := Positions(|flagFormat|, |flag|, false);
    var i := |flagFormat| + k;
    var s := Overlay(Seed(flagFormat, |flag|), flag, ps[..k]);
    ForwardCandidate(flag, flagFormat, k);
    assert s[..i] == flag[..i];
    assert Plain(s);
    assert ps[k] == i;
    PrefixSeparates(measure, flag, cs, base, unit, s, i);
  }

  /** Every length probe is read; the one as long as the flag reads more than
      `base`, every other one reads exactly `base`. */
  lemma ProbeReadings(measure: Oracle, flag: string, base: nat, unit: nat, maxlen: int)
    requires unit > 0 && AffineInWork(measure, flag, base, unit)
    requires 1 <= |flag| <= maxlen
    ensures var vals := Probes(measure, maxlen);
            forall j :: 0 <= j < |vals| ==>
              && vals[j].Some?
              && (j == |flag| - 1 ==> vals[j].value > base)
              && (j != |flag| - 1 ==> vals[j].value == base)
  {
    var vals := Probes(measure, maxlen);
    forall j | 0 <= j < |vals|
      ensures vals[j] == Some(base + unit * ProbeWork(flag, Repeat('a', j + 1)))
      ensures j != |flag| - 1 ==> ProbeWork(flag, Repeat('a', j + 1)) == 0
      ensures j == |flag| - 1 ==> ProbeWork(flag, Repeat('a', j + 1)) > 0
    {
      assert Plain(Repeat('a', j + 1));
      AffineAt(measure, flag, base, unit, Repeat('a', j + 1));
    }
    forall j | 0 <= j < |vals| && j == |flag| - 1 ensures vals[j].value > base {
      ScaleStrict(base, unit, 0, ProbeWork(flag, Repeat('a', j + 1)));
    }
  }

  /** The probe of the flag's length is the only one that reaches the
      comparison, so `find_length` reports that length, unless the flag has a
      single character, which the baseline makes inconclusive. */
  lemma LengthFound(measure: Oracle, flag: string, base: nat, unit: nat, maxlen: int)
    requires unit > 0 && AffineInWork(measure, flag, base, unit)
    requires 1 <= |flag| <= maxlen
    ensures InferLength(measure, maxlen) == if |flag| == 1 then None else Some(|flag|)
  {
    var vals := Probes(measure, maxlen);
    var k := |flag| - 1;
    ProbeReadings(measure, flag, base, unit, maxlen);
    assert IsFirstArgmax(vals, -1, k);
    assert Repeat('a', 1) == "a";
    assert vals[0] == measure("a");
    InconclusiveIffFirstIsOne(measure, maxlen, k);
    InferLengthIsFirstArgmax(measure, maxlen);
  }

  /** Every character of the example flag is in the default charset. */
  lemma FlagInDefaultCharset()
    ensures Plain(Flag)
    ensures forall j :: 0 <= j < |Flag| ==> Flag[j] in Charset(0)
  {
    assert '{' in Punctuation && '}' in Punctuation;
    forall j | 0 <= j < |Flag| ensures InCharset(0, Flag[j]) {
    }
  }

  /** With taCTF's defaults against the example target, the length guess is
      the flag's length. */
  lemma ExampleLength(measure: Oracle, base: nat, unit: nat)
    requires unit > 0 && measure == TargetOracle(Flag, base, unit)
    ensures InferLength(measure, 35) == Some(|Flag|)
  {
    assert Plain(Flag) && |Flag| == 13 by {
      FlagInDefaultCharset();
    }
    TargetOracleAffine(Flag, base, unit);
    LengthFound(measure, Flag, base, unit, 35);
  }

  /** Against the target holding `flag`, the forward sweep with no flag format
      over the flag's length ends on the flag when its characters are in the
      charset. */
  lemma TargetSweep(flag: string, code: int, base: nat, unit: nat)
    requires unit > 0 && |flag| + 3 <= MaxInputLen && Plain(flag)
    requires forall j :: 0 <= j < |flag| ==> flag[j] in Charset(code)
    ensures var seed := Seed("", |flag|);
            var trace := Sweep(TargetOracle(flag, base, unit), code, seed, Positions(0, |flag|, false));
            |trace| == |flag| && Current(seed, trace) == flag
  {
    assert flag[..0] == "";
    TargetOracleAffine(flag, base, unit);
    ForwardRecovers(TargetOracle(flag, base, unit), flag, "", code, base, unit);
  }

  /** With taCTF's defaults against the example target, the forward sweep over
      the guessed length ends on the flag. */
  lemma ExampleSweep(measure: Oracle, base: nat, unit: nat)
    requires unit > 0 && measure == TargetOracle(Flag, base, unit)
    ensures var seed := Seed("", |Flag|);
            var trace := Sweep(measure, 0, seed, Positions(0, |Flag|, false));
            |trace| == |Flag| && Current(seed, trace) == Flag
  {
    FlagInDefaultCharset();
    TargetSweep(Flag, 0, base, unit);
  }

  /** Running taCTF with its defaults (maximum length 35, charset code 0, no
      flag format, forward) against the example target recovers its flag. */
  method RecoverExampleFlag(base: nat, unit: nat) returns (r: Option<string>, trace: seq<string>)
    requires unit > 0
    ensures r == Some(Flag)
    ensures |trace| == |Flag| && trace[|trace| - 1] == Flag
  {
    var measure := TargetOracle(Flag, base, unit);
    ExampleLength(measure, base, unit);
    ExampleSweep(measure, base, unit);
    r, trace := FindString(measure, 35, false, false, 0, 0, "");
  }
}
