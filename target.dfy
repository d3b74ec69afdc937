/**
  * The demonstration target of test/example.c: a program that reads one line
  * and, when it is exactly one character longer than the secret flag, runs an
  * early-exit comparison of the flag against it.
  *
  * The secret is a parameter `flag`; `Flag` is the one the program hard-codes.
  * C's `size_t` subtraction is written out modulo 2^64, and the line `fgets`
  * reads is a function of what is on standard input.
  */
module Target {
  /** `char flag[] = "sigpwny{flag}"`. */
  const Flag: string := "sigpwny{flag}"

  /** `#define MAX_INPUT_LEN 100`: the size of the input buffer. */
  const MaxInputLen: nat := 100

  /** Values of `size_t` are taken modulo 2^64. */
  const SizeModulus: int := 0x1_0000_0000_0000_0000

  /** How many leading positions below `n` `a` and `b` agree on: the index of
      the first mismatch, or `n` when there is none. */
  function MatchLength(a: string, b: string, n: nat): (m: nat)
    requires n <= |a| && n <= |b|
    ensures m <= n
    ensures a[..m] == b[..m]
    ensures m < n ==> a[m] != b[m]
    decreases n
  {
    if n == 0 || a[0] != b[0] then 0
    else
      var m := MatchLength(a[1..], b[1..], n - 1);
      assert a[1..][..m] == b[1..][..m];
      assert a[..m + 1] == [a[0]] + a[1..][..m];
      assert b[..m + 1] == [b[0]] + b[1..][..m];
      1 + m
  }

  /** The match length depends on nothing but the first `n` characters. */
  lemma MatchLengthUnique(a: string, b: string, n: nat, m: nat)
    requires n <= |a| && n <= |b|
    requires m <= n && a[..m] == b[..m] && (m < n ==> a[m] != b[m])
    ensures m == MatchLength(a, b, n)
  {
  }

  /** A common prefix of `k` characters is matched. */
  lemma MatchLengthAtLeast(a: string, b: string, n: nat, k: nat)
    requires n <= |a| && n <= |b| && k <= n && a[..k] == b[..k]
    ensures MatchLength(a, b, n) >= k
  {
  }

  /** `insecure_string_compare(a, b, length)`: compares the first `length`
      characters and returns false at the first mismatch. `iterations` counts
      executions of the loop body, `guardTests` evaluations of `i < length`. */
  method InsecureStringCompare(a: string, b: string, length: nat)
    returns (equal: bool, iterations: nat, guardTests: nat)
    requires length <= |a| && length <= |b|
    ensures equal <==> forall j :: 0 <= j < length ==> a[j] == b[j]
    ensures equal <==> a[..length] == b[..length]
    ensures var m := MatchLength(a, b, length);
            && (equal <==> m == length)
            && iterations == (if m < length then m + 1 else length)
            && guardTests == m + 1
  {
    var i: nat := 0;
    iterations := 0;
    guardTests := 1;
    while i < length
      invariant i <= length
      invariant a[..i] == b[..i]
      invariant iterations == i && guardTests == i + 1
    {
      iterations := iterations + 1;
      if a[i] != b[i] {
        MatchLengthUnique(a, b, length, i);
        assert a[..length][i] != b[..length][i];
        return false, iterations, guardTests;
      }
      i := i + 1;
      guardTests := guardTests + 1;
    }
    MatchLengthUnique(a, b, length, length);
    assert forall j :: 0 <= j < length ==> a[j] == a[..length][j] && b[j] == b[..length][j];
    return true, iterations, guardTests;
  }

  /** The length of the C string held in `s`: up to its first NUL. */
  function Strlen(s: string): (n: nat)
    ensures n <= |s|
    ensures forall j :: 0 <= j < n ==> s[j] != '\0'
    ensures n < |s| ==> s[n] == '\0'
  {
    if s == [] || s[0] == '\0' then 0 else 1 + Strlen(s[1..])
  }

  /** `fgets(input, size, stdin)`: reads until it has `size - 1` characters,
      has read a newline (which it keeps), or reaches the end of the input. */
  function Fgets(stdin: string, size: nat): (line: string)
    ensures |line| <= |stdin| && line == stdin[..|line|]
    ensures size > 0 ==> |line| < size
    ensures forall j :: 0 <= j < |line| - 1 ==> line[j] != '\n'
    ensures size >= 1 ==> |line| == size - 1 || |line| == |stdin| || (line != [] && line[|line| - 1] == '\n')
    decreases size
  {
    if size <= 1 || stdin == [] then []
    else if stdin[0] == '\n' then "\n"
    else [stdin[0]] + Fgets(stdin[1..], size - 1)
  }

  /** `strlen(input) - 1` in `size_t` arithmetic: `SIZE_MAX` for an empty line. */
  function SizeDecrement(n: nat): (r: int)
    ensures 0 <= r < SizeModulus
    ensures n < SizeModulus ==> (r == n - 1 <==> n > 0)
    ensures n == 0 ==> r == SizeModulus - 1
  {
    (n - 1) % SizeModulus
  }

  /** The gate of `main`: `(strlen(input) - 1) != strlen(flag)` sends the
      program home without comparing. */
  predicate Compares(flag: string, line: string) {
    SizeDecrement(Strlen(line)) == Strlen(flag)
  }

  /** The gate lets a line through exactly when it is one longer than the flag,
      counting its newline; an empty line does not wrap round to a match. */
  lemma CompareGate(flag: string, line: string)
    requires |flag| + 1 < SizeModulus && |line| < SizeModulus
    ensures Compares(flag, line) <==> Strlen(line) == Strlen(flag) + 1
  {
  }

  /** The comparison work of the program on `stdin`: the guard tests of the
      comparison when the gate lets the line through, nothing otherwise. */
  function CompareWork(flag: string, stdin: string): (w: nat)
    requires |flag| < MaxInputLen
    ensures w <= Strlen(flag) + 1
    ensures w > 0 <==> Strlen(Fgets(stdin, MaxInputLen)) == Strlen(flag) + 1
  {
    var line := Fgets(stdin, MaxInputLen);
    CompareGate(flag, line);
    if Compares(flag, line) then MatchLength(flag, line, Strlen(flag)) + 1 else 0
  }

  /** `main` without its I/O: read the line, apply the gate, compare. `main`
      discards the comparison's result and returns 0 on both paths; `equal` is
      that discarded result, returned here only so the contract can state it. */
  method Run(flag: string, stdin: string) returns (compared: bool, equal: bool, guardTests: nat)
    requires |flag| < MaxInputLen
    ensures var line := Fgets(stdin, MaxInputLen);
            && (compared <==> Strlen(line) == Strlen(flag) + 1)
            && (compared ==> Strlen(flag) < Strlen(line) <= |line|)
            && (compared ==> (equal <==> flag[..Strlen(flag)] == line[..Strlen(flag)]))
            && (!compared ==> !equal)
            && guardTests == CompareWork(flag, stdin)
  {
    var line := Fgets(stdin, MaxInputLen);
    CompareGate(flag, line);
    if SizeDecrement(Strlen(line)) != Strlen(flag) {
      return false, false, 0;
    }
    var iterations;
    equal, iterations, guardTests := InsecureStringCompare(flag, line, Strlen(flag));
    compared := true;
  }
}
