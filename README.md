# taCTF search engine, modelled in Dafny

taCTF recovers a secret string, such as a CTF flag, from a program that checks
the string with an early-exit comparison. It counts the instructions the
target executes on each candidate input and keeps the candidate that costs the
most. This project models the search engine of `tactf.py` and the example
target `test/example.c`, and proves what the search does and why it works on
that target.

- `Charsets` (`charsets.dfy`): the shell-safe punctuation is computed once at
  load time by stripping `string.punctuation` and removing each disallowed
  character with `list.remove`. `get_charset` builds the ordered alphabet for
  a charset code.
- `Display` (`display.dfy`): `make_bold`, the highlighting used by the verbose
  trace. It uses the SGR bold and reset controls of ECMA-48, section 8.3.117.
- `Search` (`search.dfy`): `find_char_at`, `find_length` and `find_string`.
  - The instruction counter is an abstract, deterministic `Oracle`, a function
    from a candidate to an optional count.
  - `None` stands for a run in which no count could be read.
  - Each loop of the source is a method.
  - Each method is proved equal to a specification function:
    `ResolveChar`, `InferLength`, and `Sweep` with `Current`.
  - Lemmas state what those functions mean: a first-wins argmax, a
    length-preserving change of one position, and the shape of the final
    candidate.
- `Target` (`target.dfy`): `insecure_string_compare` is a method with a loop
  and counters for its body runs and guard tests. The rest of `main` is
  modelled too:
  - reading the line with `fgets`;
  - `strlen`;
  - the `size_t` length gate.
- `Recovery` (`recovery.dfy`): ties the two together. The target's
  measurement is modelled as `base + unit * guard tests`. Under that model:
  - `find_length` reports the flag's length;
  - the forward sweep of `find_string` rebuilds the flag;
  - with taCTF's defaults the whole search returns `sigpwny{flag}`.

Some behaviour of the source that the model keeps as written:

- `find_length` compares `init_counts != maximum`.
  - When the reading for `"a"` is missing, the result is never inconclusive.
  - A secret of length 1 is always reported inconclusive, because its peak
    probe is `"a"` itself (`InconclusiveIffFirstIsOne`, `LengthFound`).
  - When no probe has a reading, the result is -1, not `None`.
- `find_char_at` returns `""` when no reading beats 0. `find_string` keeps
  going with that `""`.
  - The next step works on the empty candidate. Python's slice clamping makes
    each of its trials a single character (`Splice`, `DegenerateStep`).
  - Forward, every position after that lies past the end of the candidate,
    so each later step appends one character.
  - In reverse the positions descend. Steps append only until the position
    falls inside the candidate, and from then on replace a character in
    place.
  - In either mode a later `""` starts the candidate over from empty.
  - The final answer is therefore not of the requested length.
  - `SearchResultShape` assumes that no step came back `""`.
- On the target, the loop-body count of `insecure_string_compare` is the same
  for a mismatch at the last position and for a full match (k + 1 = n).
  - Only the guard-test count, `MatchLength + 1`, grows strictly with the
    matching prefix.
  - `Recovery` builds its measurement model on the guard-test count.
- In `find_string`, the forward and reverse `range` loops differ only in the
  positions they walk (`Positions`). The model is one loop over that sequence
  of positions.

## Model

| member | source | states |
|---|---|---|
| `Charsets.Strip` | tactf.py:12 | `str.strip(" ")`: no space is left at either end, the result is a subsequence of the input, and a string without a space at either end is unchanged |
| `Charsets.StripTrims` | tactf.py:12 | `str.strip` removes only the leading and trailing runs: the result is the infix after the leading run, with nothing but spaces outside it |
| `Charsets.StripUnique` | tactf.py:12 | any infix with only spaces outside it and no space at either end is the result of `str.strip`, which is therefore fully determined |
| `Charsets.RemoveFirst` | tactf.py:14 | `list.remove`: fails exactly when the character is absent; otherwise removes one occurrence and keeps the order of the rest |
| `Charsets.RemoveFirstAt` | tactf.py:14 | the occurrence `list.remove` takes out is the first: with `c` at index `i` and nowhere before it, the result is the list without index `i` |
| `Charsets.Without` | tactf.py:13-15 | keeps the characters not in the banned list and none of the banned ones, in their original order |
| `Charsets.WithoutCounts` | tactf.py:13-15 | every occurrence of a kept character stays and no banned one is left: the count of each character is its count in the input, or 0 when it is banned |
| `Charsets.FilterPunctuation` | tactf.py:12-15 | the strip-then-remove loop equals the fold of `list.remove` over the banned list; when the stripped list has no repeated character and the banned characters are distinct and all present, it equals filtering them out |
| `Charsets.RemoveEachIsWithout` | tactf.py:13-14 | in a list without repeated characters, removing each of several distinct, present characters once is the same as filtering them all out |
| `Charsets.PunctuationFiltered` | tactf.py:10-15 | the loaded `punctuation` is `!$%*+,-./:=?@[]^_{}~`: it is `string.punctuation` without the 12 disallowed characters, every other character kept in order, and no `list.remove` fails |
| `Charsets.Charset` | tactf.py:22-33 | every code yields a non-empty alphabet of distinct characters; a character is in it exactly when its class belongs to the code (codes 1-4, and every other integer gives the full set); no disallowed character ever occurs |
| `Charsets.CharsetLayout` | tactf.py:22-33 | the order that decides ties: lowercase first unless code 2, punctuation last, and the size for each code |
| `Display.MakeBold` | tactf.py:18-19 | the result is 8 characters longer; the text before and after `index` is kept, with the character at `index` between the bold and reset escapes |
| `Display.UnboldMakeBold` | tactf.py:18-19 | deleting the two escapes from `make_bold`'s result gives the text back |
| `Display.MakeBoldUnbold` | tactf.py:18-19 | every string with the two escapes around a position is `make_bold` of its unbolded text |
| `Search.RunMax` | tactf.py:55-63 | the running maximum with strict `>` ends on the first maximiser above the floor, or on -1 exactly when no reading is above it |
| `Search.RunMaxStep` | tactf.py:60-63 | one more reading moves the running maximum to it exactly when it is present and strictly above the best so far |
| `Search.FirstArgmaxAll` | tactf.py:61-63 | the first maximiser is unique |
| `Search.Splice` | tactf.py:58 | inside the string, the trial has the same length, the new character at `loc` and the old one everywhere else; past the end, Python's clamping appends the character |
| `Search.ResolveCharIsFirstArgmax` | tactf.py:55-66 | `find_char_at` returns `""` exactly when no reading is above 0, and otherwise the trial of the first charset character with the largest reading |
| `Search.ResolveCharShape` | tactf.py:57-63 | a non-empty answer at a position inside the candidate keeps the length, puts a charset character at that position and leaves every other position unchanged |
| `Search.FindCharAt` | tactf.py:51-66 | the loop returns the first-wins argmax trial, or `""` exactly when nothing beats 0 |
| `Search.DegenerateStep` | tactf.py:58 | a step on the empty candidate returns `""` or a single charset character |
| `Search.Repeat` | tactf.py:74 | `c * n`: `n` copies of `c`, and empty for `n <= 0` |
| `Search.InferLengthIsFirstArgmax` | tactf.py:69-82 | -1 when no probe has a reading; otherwise, for the first probe with the largest reading, `None` exactly when the baseline reading for `"a"` equals that reading, and that probe's length when not |
| `Search.FindLength` | tactf.py:69-82 | the probing loop returns `InferLength` |
| `Search.InconclusiveIffFirstIsOne` | tactf.py:71-81 | with a reading for `"a"`, the answer is inconclusive exactly when the first maximiser is the length-1 probe |
| `Search.FlatSignalInconclusive` | tactf.py:73-82 | a constant signal is reported as inconclusive |
| `Search.PeakGivesLength` | tactf.py:73-82 | readings that rise strictly up to `len` and never exceed that peak beyond it give `len`, except that `len` 1 is inconclusive |
| `Search.Seed` | tactf.py:95-96 | the seed has the flag format as prefix and `'a'` up to the requested length |
| `Search.Positions` | tactf.py:97-103 | the `j`-th position is `len(flag_format) + j` forward and `length - 1 - j` in reverse; there are `length - len(flag_format)` of them (none when that is not positive), all in that range |
| `Search.PositionsStrict` | tactf.py:98-103 | positions strictly ascend forward and strictly descend in reverse, so none is visited twice |
| `Search.SweepStep` | tactf.py:98-106 | one more position appends the result of `find_char_at` on the current candidate to the trace |
| `Search.SweepPositions` | tactf.py:97-106 | the loop over the positions replaces the candidate by `find_char_at`'s answer at each one and records it; the trace is the sweep and the candidate its last entry |
| `Search.FindString` | tactf.py:84-107 | `None` with no trace when the length guess is inconclusive; otherwise the trace of candidates is the sweep over the positions from the seed, and the answer is its last candidate |
| `Search.SweepKeepsShape` | tactf.py:97-106 | while no step returns `""`: the candidate keeps its length, unvisited positions keep the seed's character, and visited positions hold charset characters |
| `Search.StepKeepsShape` | tactf.py:99-100 | a step that changes only a fresh position, to a charset character, keeps the candidate shaped |
| `Search.ShapedAnswer` | tactf.py:95-107 | a shaped answer has the requested length, starts with the flag format and holds charset characters after it |
| `Search.SearchResultShape` | tactf.py:95-107 | if no step returns `""`, the answer has the requested length, starts with the flag format, and has a charset character at every later position |
| `Target.MatchLength` | test/example.c:9-12 | the number of leading positions on which the strings agree: they agree up to it and differ at it, unless it reaches `n` |
| `Target.MatchLengthUnique` | test/example.c:9-12 | the length of the common prefix is pinned down by the first mismatch |
| `Target.MatchLengthAtLeast` | test/example.c:9-12 | a common prefix of `k` characters is matched in full |
| `Target.InsecureStringCompare` | test/example.c:7-13 | true exactly when the first `length` characters agree. The body runs k+1 times on a mismatch at k and `length` times on a full match (so 0 times and true for length 0). The guard is tested one more time than the length of the matching prefix |
| `Target.Strlen` | test/example.c:21 | the length up to the first NUL |
| `Target.Fgets` | test/example.c:19 | the line read is a prefix of the input with no newline before its last character; it stops at `size - 1` characters, after a newline, or at the end of the input, whichever comes first |
| `Target.SizeDecrement` | test/example.c:21 | `strlen(input) - 1` in 64-bit `size_t`: the plain difference for a non-empty line, and `SIZE_MAX` (2^64 - 1) for an empty one |
| `Target.CompareGate` | test/example.c:21-25 | the comparison runs exactly when the line, counting its newline, is one longer than the flag; an empty line never wraps round to a match |
| `Target.CompareWork` | test/example.c:21-25 | the comparison's work is at most `strlen(flag) + 1`, and positive exactly when the gate lets the line through |
| `Target.Run` | test/example.c:17-26 | `main` compares only lines one longer than the flag and never compares the trailing newline. It computes whether the flag's characters agree, then discards the result: `equal` is never exposed, and the exit code is 0 either way. It does the work `CompareWork` counts |
| `Recovery.EchoedWork` | tactf.py:38 | `echo` feeds the candidate plus a newline. For a candidate without newline or NUL, the target compares exactly when it has the flag's length, and the work is one more than its matching prefix |
| `Recovery.TargetOracleAffine` | tactf.py:36-48 | the measurement of the example target is `base + unit * work` on every such candidate |
| `Recovery.CharsetPrintable` | tactf.py:22-33 | every charset character is printable, so no candidate carries a newline or NUL |
| `Recovery.ResolveCorrect` | tactf.py:55-66 | if the reading for one charset character is positive and strictly above every other's, `find_char_at` puts exactly that character at the position |
| `Recovery.SweepRecovers` | tactf.py:97-106 | in any order of positions: if each step separates the secret's character, the sweep ends on the seed with the secret at every visited position |
| `Recovery.RightReading` | test/example.c:7-13 | on the example target, with the prefix matching the flag, the flag's own character at the next position reads more than `i + 1` guard tests' worth |
| `Recovery.WrongReading` | test/example.c:7-13 | any other character there reads exactly `i + 1` guard tests' worth |
| `Recovery.PrefixSeparates` | tactf.py:55-66 | on the example target, at a position whose prefix already matches the flag, the flag's own character has the strictly largest reading |
| `Recovery.ForwardRecovers` | tactf.py:95-101 | the forward sweep from a flag-format prefix of the flag rebuilds the flag when its remaining characters are in the charset |
| `Recovery.ForwardCandidate` | tactf.py:95-101 | before the `k`-th forward step, the candidate is the flag up to `len(flag_format) + k` and `'a'` after it |
| `Recovery.ForwardDone` | tactf.py:95-101 | once every position after the format is visited, the overlay is the flag |
| `Recovery.ProbeReadings` | tactf.py:73-80 | on the example target, every length probe is read; the probe as long as the flag reads more than the others, which all read the same |
| `Recovery.LengthFound` | tactf.py:69-82 | on the example target, `find_length` reports the flag's length (a 1-character flag is inconclusive) |
| `Recovery.FlagInDefaultCharset` | test/example.c:17 | every character of `sigpwny{flag}` is in the default charset |
| `Recovery.TargetSweep` | tactf.py:95-101 | against the target holding any flag whose characters are in the charset, the forward sweep with no flag format rebuilds the flag |
| `Recovery.ExampleLength` | tactf.py:69-82 | with the default maximum length 35, `find_length` guesses 13 for `sigpwny{flag}` |
| `Recovery.ExampleSweep` | tactf.py:95-101 | with the default charset, the forward sweep over 13 positions rebuilds `sigpwny{flag}` |
| `Recovery.RecoverExampleFlag` | tactf.py:84-107 | `find_string` with its defaults (maximum length 35, charset 0, no flag format, forward) returns `sigpwny{flag}` from the example target, and its last traced candidate is the flag |

## Left out

- `get_instruction_count` (tactf.py:36-48) is not modelled as code. It runs a shell pipeline under valgrind/callgrind, uses a temporary file and parses stderr. It is the `Oracle` parameter instead, deterministic by construction. `find_length` reads `"a"` twice, and the proofs rely on the two readings agreeing.
- Measurement noise and the target's other work are left out. On the target, the measurement is modelled as `base + unit * guard tests` (`AffineInWork`). Work in `fgets` and `strlen` that grows with the input length is not part of it.
- Shell expansion by `echo "{test_str}"` is left out. The target is assumed to receive the candidate followed by a newline. Characters such as `$` stay in the charset and could be expanded by a real shell.
- Printing and the verbose trace are left out (tactf.py:52-53, 64-65, 75-76, 94, 101, 106). `find_string` returns the sequence of printed candidates as `trace`. In verbose mode, `make_bold` raises `IndexError` when the candidate has become `""`; the model has no verbose mode.
- `sys.exit()` after an inconclusive length guess (tactf.py:91-93) is modelled as a `None` result.
- The command line and the `__main__` block (tactf.py:110-136) are left out. `RecoverExampleFlag` passes their default values by hand.
- Negative positions are left out. `make_bold` and `find_char_at` take a `nat` position; Python's negative indices cannot be reached from `find_string`.
- `Search.FindString` walks both `range` loops as one loop over the `Positions` sequence. The source's two loops differ only in that range.
- The reverse sweep is not proved to recover anything. The example target compares from the front, so only the forward direction is proved (`ForwardRecovers`). `SweepRecovers` holds for any order of positions.
- In `main` (test/example.c:15-29), the process return code and reading an empty standard input are left out. When `fgets` returns `NULL`, the buffer is unspecified in C; the model treats the line as empty.
- `Target.Run`: its `equal` result is the value `insecure_string_compare` computes, which `main` discards (test/example.c:25). The program returns 0 either way, so only the work it does is observable.
- `Target.Run` takes the flag as a parameter; the program hard-codes `Flag`. The flag is required to be shorter than the input buffer, as `sigpwny{flag}` is.
