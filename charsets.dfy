/**
  * The alphabets the search tries at each position (tactf.py, lines 8-33):
  * the shell-safe punctuation computed when the module loads, and the
  * ordered character set picked by a small integer code.
  */
module Charsets {
  import opened Wrappers

  /** Python's `string.ascii_lowercase`, `string.ascii_uppercase`, `string.digits`. */
  const AsciiLowercase: string := "abcdefghijklmnopqrstuvwxyz"
  const AsciiUppercase: string := "ABCDEFGHIJKLMNOPQRSTUVWXYZ"
  const Digits: string := "0123456789"

  /** Python's `string.punctuation`: the 32 printable ASCII punctuation characters. */
  const StringPunctuation: string := "!\"#$%&'()*+,-./:;<=>?@[\\]^_`{|}~"

  /** Characters that would break out of the double-quoted `echo` in the shell pipeline. */
  const NotAllowed: seq<char> := ['"', '\'', '(', ')', '>', '<', '`', '|', '\\', '#', ';', '&']

  /** The module-level `punctuation` once the disallowed characters are removed. */
  const Punctuation: string := "!$%*+,-./:=?@[]^_{}~"

  predicate IsLower(c: char) { 'a' <= c <= 'z' }
  predicate IsUpper(c: char) { 'A' <= c <= 'Z' }
  predicate IsDigit(c: char) { '0' <= c <= '9' }

  /** No character occurs twice. */
  predicate Distinct(s: seq<char>) {
    forall i, j :: 0 <= i < j < |s| ==> s[i] != s[j]
  }

  /** Each character is strictly below the next one. */
  predicate Ascending(s: seq<char>) {
    forall i :: 0 < i < |s| ==> s[i - 1] < s[i]
  }

  /** `r` is `xs` with some characters dropped and the rest kept in order. */
  predicate IsSubsequence(r: seq<char>, xs: seq<char>)
    decreases |xs|
  {
    if r == [] then true
    else if xs == [] then false
    else if r[0] == xs[0] then IsSubsequence(r[1..], xs[1..])
    else IsSubsequence(r, xs[1..])
  }

  // ---------------------------------------------------------------------
  // str.strip(" ")
  // ---------------------------------------------------------------------

  /** `s` without its leading run of `c`. */
  function StripStart(s: string, c: char): (r: string)
    ensures r == [] || r[0] != c
    ensures |r| <= |s| && r == s[|s| - |r|..]
    ensures forall k :: 0 <= k < |s| - |r| ==> s[k] == c
    ensures (s == [] || s[0] != c) ==> r == s
  {
    if s != [] && s[0] == c then StripStart(s[1..], c) else s
  }

  /** `s` without its trailing run of `c`. */
  function StripEnd(s: string, c: char): (r: string)
    ensures r == [] || r[|r| - 1] != c
    ensures |r| <= |s| && r == s[..|r|]
    ensures forall k :: |r| <= k < |s| ==> s[k] == c
    ensures (s == [] || s[|s| - 1] != c) ==> r == s
  {
    if s != [] && s[|s| - 1] == c then StripEnd(s[..|s| - 1], c) else s
  }

  /** Python's `s.strip(c)` for a single character `c`: no `c` is left at either end,
      nothing else is lost, and a string that neither starts nor ends with `c` is unchanged. */
  function Strip(s: string, c: char): (r: string)
    ensures r == [] || (r[0] != c && r[|r| - 1] != c)
    ensures IsSubsequence(r, s)
    ensures (s == [] || (s[0] != c && s[|s| - 1] != c)) ==> r == s
  {
    var t := StripStart(s, c);
    InfixIsSubsequence(s, |s| - |t|, |s|);
    assert s[|s| - |t|..|s|] == t;
    InfixIsSubsequence(t, 0, |StripEnd(t, c)|);
    assert t[0..|StripEnd(t, c)|] == StripEnd(t, c);
    SubsequenceTransitive(StripEnd(t, c), t, s);
    StripEnd(t, c)
  }

  /** `s[i..j]` is `s` trimmed of `c`: only `c` lies outside it, and it
      neither starts nor ends with `c`. */
  predicate TrimmedAt(s: string, c: char, i: nat, j: nat) {
    && i <= j <= |s|
    && (forall k :: 0 <= k < i ==> s[k] == c)
    && (forall k :: j <= k < |s| ==> s[k] == c)
    && (i < j ==> s[i] != c && s[j - 1] != c)
  }

  /** There is one trimmed infix: two of them have the same bounds, or are
      both empty. */
  lemma TrimmedAtUnique(s: string, c: char, i: nat, j: nat, i': nat, j': nat)
    requires TrimmedAt(s, c, i, j) && TrimmedAt(s, c, i', j')
    ensures (i == i' && j == j') || (i == j && i' == j')
  {
  }

  /** `Strip` removes the leading and trailing runs of `c` and nothing else:
      it returns the trimmed infix starting after the leading run. */
  lemma StripTrims(s: string, c: char)
    ensures var t := StripStart(s, c);
            var i := |s| - |t|;
            var r := StripEnd(t, c);
            && Strip(s, c) == r
            && TrimmedAt(s, c, i, i + |r|) && r == s[i..i + |r|]
  {
    StripComposes(s, c);
    TrimParts(s, c);
  }

  /** Whichever infix `s[i..j]` is trimmed of `c` is what `Strip` returns. */
  lemma StripUnique(s: string, c: char, i: nat, j: nat)
    requires TrimmedAt(s, c, i, j)
    ensures Strip(s, c) == s[i..j]
  {
    StripComposes(s, c);
    TrimPartsUnique(s, c, i, j);
  }

  lemma StripComposes(s: string, c: char)
    ensures Strip(s, c) == StripEnd(StripStart(s, c), c)
  {
  }

  lemma TrimPartsUnique(s: string, c: char, i: nat, j: nat)
    requires TrimmedAt(s, c, i, j)
    ensures StripEnd(StripStart(s, c), c) == s[i..j]
  {
    var i0 := |s| - |StripStart(s, c)|;
    var r := StripEnd(StripStart(s, c), c);
    TrimParts(s, c);
    TrimmedAtSame(s, c, i, j, i0, i0 + |r|, r);
  }

  lemma TrimmedAtSame(s: string, c: char, i: nat, j: nat, i': nat, j': nat, r: string)
    requires TrimmedAt(s, c, i, j) && TrimmedAt(s, c, i', j') && r == s[i'..j']
    ensures r == s[i..j]
  {
    TrimmedAtUnique(s, c, i, j, i', j');
  }

  /** Stripping the front run and then the back run leaves the trimmed infix. */
  lemma TrimParts(s: string, c: char)
    ensures var t := StripStart(s, c);
            var r := StripEnd(t, c);
            var i := |s| - |t|;
            TrimmedAt(s, c, i, i + |r|) && r == s[i..i + |r|]
  {
    TrimInfix(s, c);
    TrimEnds(s, c);
    TrimTail(s, c);
  }

  lemma TrimInfix(s: string, c: char)
    ensures var t := StripStart(s, c);
            var r := StripEnd(t, c);
            var i := |s| - |t|;
            i + |r| <= |s| && r == s[i..i + |r|]
  {
    var t := StripStart(s, c);
    var r := StripEnd(t, c);
    assert t == s[|s| - |t|..] && r == t[..|r|];
  }

  lemma TrimEnds(s: string, c: char)
    ensures var t := StripStart(s, c);
            var r := StripEnd(t, c);
            var i := |s| - |t|;
            i + |r| <= |s| && (r != [] ==> s[i] != c && s[i + |r| - 1] != c)
  {
    var t := StripStart(s, c);
    var i := |s| - |t|;
    var r := StripEnd(t, c);
    if r != [] {
      assert s[i] == t[0] == r[0];
      assert s[i + |r| - 1] == t[|r| - 1] == r[|r| - 1];
    }
  }

  lemma TrimTail(s: string, c: char)
    ensures var t := StripStart(s, c);
            var r := StripEnd(t, c);
            var i := |s| - |t|;
            forall k :: i + |r| <= k < |s| ==> s[k] == c
  {
    var t := StripStart(s, c);
    var i := |s| - |t|;
    var r := StripEnd(t, c);
    forall k | i + |r| <= k < |s| ensures s[k] == c {
      assert s[k] == t[k - i];
    }
  }

  // ---------------------------------------------------------------------
  // The list.remove loop at module load
  // ---------------------------------------------------------------------

  /** The characters of `xs` that are not in `banned`, in their original order. */
  function Without(xs: seq<char>, banned: seq<char>): (r: seq<char>)
    ensures forall c :: c in r <==> c in xs && c !in banned
    ensures IsSubsequence(r, xs)
  {
    if xs == [] then []
    else
      var rest := Without(xs[1..], banned);
      SubsequenceDropFront(rest, xs);
      if xs[0] in banned then rest else [xs[0]] + rest
  }

  /** Python's `list.remove(c)`: the first occurrence of `c` goes; `None` stands for
      the `ValueError` raised when there is none. */
  function RemoveFirst(xs: seq<char>, c: char): (r: Option<seq<char>>)
    ensures r.None? <==> c !in xs
    ensures r.Some? ==> multiset(r.value) == multiset(xs) - multiset{c}
    ensures r.Some? ==> IsSubsequence(r.value, xs)
  {
    if xs == [] then None
    else if xs[0] == c then
      assert xs == [xs[0]] + xs[1..];
      SubsequenceRefl(xs[1..]);
      SubsequenceWiden(xs[1..], xs);
      Some(xs[1..])
    else
      match RemoveFirst(xs[1..], c)
      case None => None
      case Some(ys) =>
        assert xs == [xs[0]] + xs[1..];
        Some([xs[0]] + ys)
  }

  /** `list.remove` takes out the first occurrence: the one at index `i` when
      no earlier character is `c`. */
  lemma {:induction false} RemoveFirstAt(xs: seq<char>, c: char, i: nat)
    requires i < |xs| && xs[i] == c && c !in xs[..i]
    ensures RemoveFirst(xs, c) == Some(xs[..i] + xs[i + 1..])
    decreases i
  {
    if i == 0 {
      assert xs[..i] + xs[i + 1..] == xs[1..];
    } else {
      var tail := xs[1..];
      assert xs[0] != c by {
        assert xs[0] == xs[..i][0];
      }
      assert c !in tail[..i - 1] by {
        assert tail[..i - 1] == xs[1..i];
      }
      RemoveFirstAt(tail, c, i - 1);
      var ys := tail[..i - 1] + tail[i..];
      assert RemoveFirst(xs, c) == Some([xs[0]] + ys);
      RejoinAround(xs, i);
    }
  }

  /** Putting the first character back in front of a tail that skips index
      `i - 1` gives the whole sequence skipping index `i`. */
  lemma RejoinAround(xs: seq<char>, i: nat)
    requires 0 < i < |xs|
    ensures [xs[0]] + (xs[1..][..i - 1] + xs[1..][i..]) == xs[..i] + xs[i + 1..]
  {
    assert xs[..i] == [xs[0]] + xs[1..][..i - 1];
    assert xs[1..][i..] == xs[i + 1..];
  }

  /** `Without` keeps every occurrence of each character it does not ban and
      none of those it bans. */
  lemma {:induction false} WithoutCounts(xs: seq<char>, banned: seq<char>)
    ensures forall x :: multiset(Without(xs, banned))[x] == if x in banned then 0 else multiset(xs)[x]
    decreases |xs|
  {
    if xs != [] {
      WithoutCounts(xs[1..], banned);
      assert xs == [xs[0]] + xs[1..];
      assert multiset(xs) == multiset{xs[0]} + multiset(xs[1..]);
    }
  }

  /** `list.remove` applied for each character of `banned` in turn. */
  function RemoveEach(xs: seq<char>, banned: seq<char>): Option<seq<char>>
    decreases |banned|
  {
    if banned == [] then Some(xs)
    else
      match RemoveFirst(xs, banned[0])
      case None => None
      case Some(ys) => RemoveEach(ys, banned[1..])
  }

  /** The module-level loop: strip spaces, then remove each disallowed character
      once. When the characters are distinct and all present, this is exactly
      filtering the disallowed ones out. */
  method FilterPunctuation(source: string, banned: seq<char>) returns (r: Option<string>)
    ensures r == RemoveEach(Strip(source, ' '), banned)
    ensures Distinct(Strip(source, ' ')) && Distinct(banned) &&
            (forall b :: b in banned ==> b in Strip(source, ' ')) ==>
              r == Some(Without(Strip(source, ' '), banned))
  {
    var chars := Strip(source, ' ');
    ghost var stripped := chars;
    r := None;
    var k := 0;
    while k < |banned|
      invariant 0 <= k <= |banned|
      invariant RemoveEach(chars, banned[k..]) == RemoveEach(stripped, banned)
    {
      assert banned[k..][0] == banned[k] && banned[k..][1..] == banned[k + 1..];
      var next := RemoveFirst(chars, banned[k]);
      if next.None? {
        RemoveEachIsWithoutWhenPresent(stripped, banned);
        return;
      }
      chars := next.value;
      k := k + 1;
    }
    r := Some(chars);
    RemoveEachIsWithoutWhenPresent(stripped, banned);
  }

  lemma RemoveEachIsWithoutWhenPresent(xs: seq<char>, banned: seq<char>)
    ensures Distinct(xs) && Distinct(banned) && (forall b :: b in banned ==> b in xs) ==>
              RemoveEach(xs, banned) == Some(Without(xs, banned))
  {
    if Distinct(xs) && Distinct(banned) && (forall b :: b in banned ==> b in xs) {
      RemoveEachIsWithout(xs, banned);
    }
  }

  /** On distinct characters that are all present, removing them one by one
      is the same as filtering them out. */
  lemma {:induction false} RemoveEachIsWithout(xs: seq<char>, banned: seq<char>)
    requires Distinct(xs) && Distinct(banned)
    requires forall b :: b in banned ==> b in xs
    ensures RemoveEach(xs, banned) == Some(Without(xs, banned))
    decreases |banned|
  {
    if banned == [] {
      WithoutAbsent(xs, banned);
    } else {
      var b := banned[0];
      RemoveFirstIsWithout(xs, b);
      var ys := Without(xs, [b]);
      WithoutDistinct(xs, [b]);
      forall x | x in banned[1..] ensures x in ys {
        assert x != b;
      }
      assert Distinct(banned[1..]) by {
        forall i, j | 0 <= i < j < |banned[1..]| ensures banned[1..][i] != banned[1..][j] {
          assert banned[1..][i] == banned[i + 1] && banned[1..][j] == banned[j + 1];
        }
      }
      RemoveEachIsWithout(ys, banned[1..]);
      WithoutTwice(xs, [b], banned[1..]);
      WithoutSameMembers(xs, [b] + banned[1..], banned);
      assert [b] + banned[1..] == banned;
    }
  }

  lemma {:induction false} RemoveFirstIsWithout(xs: seq<char>, c: char)
    requires Distinct(xs) && c in xs
    ensures RemoveFirst(xs, c) == Some(Without(xs, [c]))
    decreases |xs|
  {
    var tail := xs[1..];
    assert Distinct(tail) by {
      forall i, j | 0 <= i < j < |tail| ensures tail[i] != tail[j] {
        assert tail[i] == xs[i + 1] && tail[j] == xs[j + 1];
      }
    }
    if xs[0] == c {
      assert c !in tail by {
        forall i | 0 <= i < |tail| ensures tail[i] != c { assert tail[i] == xs[i + 1]; }
      }
      WithoutAbsent(tail, [c]);
    } else {
      RemoveFirstIsWithout(tail, c);
    }
  }

  lemma {:induction false} WithoutAbsent(xs: seq<char>, banned: seq<char>)
    requires forall x :: x in xs ==> x !in banned
    ensures Without(xs, banned) == xs
    decreases |xs|
  {
    if xs != [] {
      WithoutAbsent(xs[1..], banned);
    }
  }

  lemma {:induction false} WithoutDistinct(xs: seq<char>, banned: seq<char>)
    requires Distinct(xs)
    ensures Distinct(Without(xs, banned))
    decreases |xs|
  {
    if xs != [] {
      var tail := xs[1..];
      assert Distinct(tail) by {
        forall i, j | 0 <= i < j < |tail| ensures tail[i] != tail[j] {
          assert tail[i] == xs[i + 1] && tail[j] == xs[j + 1];
        }
      }
      WithoutDistinct(tail, banned);
      assert xs[0] !in tail by {
        forall i | 0 <= i < |tail| ensures tail[i] != xs[0] { assert tail[i] == xs[i + 1]; }
      }
    }
  }

  lemma {:induction false} WithoutTwice(xs: seq<char>, first: seq<char>, second: seq<char>)
    ensures Without(Without(xs, first), second) == Without(xs, first + second)
    decreases |xs|
  {
    if xs != [] {
      WithoutTwice(xs[1..], first, second);
      var w := Without(xs, first);
      if xs[0] !in first {
        assert w == [xs[0]] + Without(xs[1..], first);
        assert w[1..] == Without(xs[1..], first);
      }
    }
  }

  lemma {:induction false} WithoutSameMembers(xs: seq<char>, b1: seq<char>, b2: seq<char>)
    requires forall c :: c in b1 <==> c in b2
    ensures Without(xs, b1) == Without(xs, b2)
    decreases |xs|
  {
    if xs != [] {
      WithoutSameMembers(xs[1..], b1, b2);
    }
  }

  // ---------------------------------------------------------------------
  // Subsequence facts
  // ---------------------------------------------------------------------

  /** Dropping the first kept character keeps a subsequence. */
  lemma {:induction false} SubsequenceTail(r: seq<char>, ys: seq<char>)
    requires r != [] && IsSubsequence(r, ys)
    ensures IsSubsequence(r[1..], ys)
    decreases |ys|, 1
  {
    if r[0] == ys[0] {
      SubsequenceWiden(r[1..], ys);
    } else {
      SubsequenceTail(r, ys[1..]);
      SubsequenceWiden(r[1..], ys);
    }
  }

  /** A subsequence of the tail is a subsequence of the whole. */
  lemma {:induction false} SubsequenceWiden(r: seq<char>, ys: seq<char>)
    requires ys != [] && IsSubsequence(r, ys[1..])
    ensures IsSubsequence(r, ys)
    decreases |ys|, 0
  {
    if r != [] && r[0] == ys[0] {
      SubsequenceTail(r, ys[1..]);
    }
  }

  lemma SubsequenceDropFront(r: seq<char>, xs: seq<char>)
    requires xs != [] && IsSubsequence(r, xs[1..])
    ensures IsSubsequence(r, xs)
    ensures IsSubsequence([xs[0]] + r, xs)
  {
    assert ([xs[0]] + r)[1..] == r;
    SubsequenceWiden(r, xs);
  }

  lemma {:induction false} SubsequenceRefl(xs: seq<char>)
    ensures IsSubsequence(xs, xs)
    decreases |xs|
  {
    if xs != [] {
      SubsequenceRefl(xs[1..]);
    }
  }

  lemma {:induction false} InfixIsSubsequence(xs: seq<char>, i: nat, j: nat)
    requires i <= j <= |xs|
    ensures IsSubsequence(xs[i..j], xs)
    decreases |xs|
  {
    if xs != [] {
      if i > 0 {
        InfixIsSubsequence(xs[1..], i - 1, j - 1);
        assert xs[1..][i - 1..j - 1] == xs[i..j];
        SubsequenceWiden(xs[i..j], xs);
      } else if j > 0 {
        InfixIsSubsequence(xs[1..], 0, j - 1);
        assert xs[1..][..j - 1] == xs[i..j][1..];
        SubsequenceDropFront(xs[i..j][1..], xs);
        assert [xs[0]] + xs[i..j][1..] == xs[i..j];
      }
    }
  }

  lemma {:induction false} SubsequenceTransitive(a: seq<char>, b: seq<char>, c: seq<char>)
    requires IsSubsequence(a, b) && IsSubsequence(b, c)
    ensures IsSubsequence(a, c)
    decreases |c|
  {
    if a != [] {
      assert b != [] && c != [];
      if b[0] == c[0] {
        if a[0] == b[0] {
          SubsequenceTransitive(a[1..], b[1..], c[1..]);
        } else {
          SubsequenceTransitive(a, b[1..], c[1..]);
        }
      } else {
        SubsequenceTransitive(a, b, c[1..]);
        SubsequenceWiden(a, c);
      }
    }
  }

  // ---------------------------------------------------------------------
  // get_charset
  // ---------------------------------------------------------------------

  /** Which characters the charset for `code` holds: lowercase unless code 2,
      uppercase for codes 2 and 3 and the default, digits for code 4 and the
      default, and the safe punctuation always. */
  predicate InCharset(code: int, c: char) {
    var fallback := !(1 <= code <= 4);
    (IsLower(c) && code != 2)
    || (IsUpper(c) && (code == 2 || code == 3 || fallback))
    || (IsDigit(c) && (code == 4 || fallback))
    || c in Punctuation
  }

  /** `get_charset(code)`: an ordered alphabet of distinct, shell-safe characters;
      codes 1-4 pick a restricted set and every other integer the full one. */
  function Charset(code: int): (r: string)
    ensures |r| > 0
    ensures Distinct(r)
    ensures forall c :: c in r <==> InCharset(code, c)
    ensures forall c :: c in r ==> c !in NotAllowed
  {
    LowercaseBlock();
    UppercaseBlock();
    DigitsBlock();
    PunctuationBlock();
    if code == 1 then
      DistinctConcat(AsciiLowercase, Punctuation);
      AsciiLowercase + Punctuation
    else if code == 2 then
      DistinctConcat(AsciiUppercase, Punctuation);
      AsciiUppercase + Punctuation
    else if code == 3 then
      DistinctConcat(AsciiLowercase, AsciiUppercase);
      DistinctConcat(AsciiLowercase + AsciiUppercase, Punctuation);
      AsciiLowercase + AsciiUppercase + Punctuation
    else if code == 4 then
      DistinctConcat(AsciiLowercase, Digits);
      DistinctConcat(AsciiLowercase + Digits, Punctuation);
      AsciiLowercase + Digits + Punctuation
    else
      DistinctConcat(AsciiLowercase, AsciiUppercase);
      DistinctConcat(AsciiLowercase + AsciiUppercase, Digits);
      DistinctConcat(AsciiLowercase + AsciiUppercase + Digits, Punctuation);
      AsciiLowercase + AsciiUppercase + Digits + Punctuation
  }

  /** The order of the alphabet, which decides ties: lowercase first unless
      code 2 (uppercase first), the safe punctuation last, and 46, 46, 72, 56
      or 82 characters for codes 1, 2, 3, 4 and every other code. */
  lemma CharsetLayout(code: int)
    ensures var r := Charset(code);
            && |r| == (if code == 1 || code == 2 then 46 else if code == 3 then 72 else if code == 4 then 56 else 82)
            && r[|r| - |Punctuation|..] == Punctuation
            && (code != 2 ==> r[..26] == AsciiLowercase)
            && (code == 2 ==> r[..26] == AsciiUppercase)
  {
  }

  /** The module-level filtering of `string.punctuation` yields `Punctuation`: no
      disallowed character is left, and every other one stays, in its order. */
  lemma PunctuationFiltered()
    ensures Strip(StringPunctuation, ' ') == StringPunctuation
    ensures RemoveEach(StringPunctuation, NotAllowed) == Some(Punctuation)
    ensures Punctuation == Without(StringPunctuation, NotAllowed)
  {
    StripPunctuation();
    StringPunctuationDistinct();
    NotAllowedPresent();
    RemoveEachIsWithout(StringPunctuation, NotAllowed);
    PunctuationIsWithout();
  }

  lemma StripPunctuation()
    ensures Strip(StringPunctuation, ' ') == StringPunctuation
  {
    assert StringPunctuation[0] == '!' && StringPunctuation[|StringPunctuation| - 1] == '~';
  }

  lemma StringPunctuationDistinct()
    ensures Distinct(StringPunctuation)
  {
    assert Ascending(StringPunctuation);
    AscendingDistinct(StringPunctuation);
  }

  lemma NotAllowedPresent()
    ensures Distinct(NotAllowed)
    ensures forall b :: b in NotAllowed ==> b in StringPunctuation
  {
  }

  lemma PunctuationIsWithout()
    ensures Punctuation == Without(StringPunctuation, NotAllowed)
  {
    assert Ascending(StringPunctuation);
    assert Ascending(Punctuation);
    PunctuationMembers();
    FilterOfAscending(StringPunctuation, NotAllowed, Punctuation);
  }

  /** In an ascending sequence, filtering is pinned down by which characters survive. */
  lemma FilterOfAscending(xs: seq<char>, banned: seq<char>, p: seq<char>)
    requires Ascending(xs) && Ascending(p)
    requires forall c :: c in p <==> c in xs && c !in banned
    ensures p == Without(xs, banned)
  {
    var w := Without(xs, banned);
    SubsequenceAscending(w, xs);
    AscendingUnique(p, w);
  }

  lemma PunctuationMembers()
    ensures forall c :: c in Punctuation <==> c in StringPunctuation && c !in NotAllowed
  {
  }

  /** A subsequence of an ascending sequence is ascending. */
  lemma {:induction false} SubsequenceAscending(r: seq<char>, xs: seq<char>)
    requires Ascending(xs) && IsSubsequence(r, xs)
    ensures Ascending(r)
    ensures forall c :: c in r ==> c in xs
    decreases |xs|
  {
    if r != [] {
      var tail := xs[1..];
      assert Ascending(tail) by {
        forall i | 0 < i < |tail| ensures tail[i - 1] < tail[i] { assert tail[i - 1] == xs[i] && tail[i] == xs[i + 1]; }
      }
      AscendingDistinct(xs);
      if r[0] == xs[0] {
        SubsequenceAscending(r[1..], tail);
        forall i | 0 < i < |r| ensures r[i - 1] < r[i] {
          if i > 1 {
            assert r[i - 1] == r[1..][i - 2] && r[i] == r[1..][i - 1];
          } else {
            assert r[1] in r[1..];
            assert r[1] in tail;
            var k :| 0 <= k < |tail| && tail[k] == r[1];
            assert xs[0] < xs[k + 1];
          }
        }
        forall c | c in r ensures c in xs {
          if c != r[0] { assert c in r[1..]; }
        }
      } else {
        SubsequenceAscending(r, tail);
      }
    }
  }

  /** Two ascending sequences with the same elements are equal. */
  lemma {:induction false} AscendingUnique(a: seq<char>, b: seq<char>)
    requires Ascending(a) && Ascending(b)
    requires forall c :: c in a <==> c in b
    ensures a == b
    decreases |a|
  {
    AscendingDistinct(a);
    AscendingDistinct(b);
    if a != [] {
      assert a[0] in b;
      assert b != [];
      assert b[0] in a;
      assert a[0] == b[0] by {
        var i :| 0 <= i < |b| && b[i] == a[0];
        var j :| 0 <= j < |a| && a[j] == b[0];
      }
      var a', b' := a[1..], b[1..];
      assert Ascending(a') by {
        forall i | 0 < i < |a'| ensures a'[i - 1] < a'[i] { assert a'[i - 1] == a[i] && a'[i] == a[i + 1]; }
      }
      assert Ascending(b') by {
        forall i | 0 < i < |b'| ensures b'[i - 1] < b'[i] { assert b'[i - 1] == b[i] && b'[i] == b[i + 1]; }
      }
      forall c ensures c in a' <==> c in b' {
        if c in a' {
          var i :| 0 <= i < |a'| && a'[i] == c;
          assert a[0] < a[i + 1];
          assert c in b;
        }
        if c in b' {
          var i :| 0 <= i < |b'| && b'[i] == c;
          assert b[0] < b[i + 1];
          assert c in a;
        }
      }
      AscendingUnique(a', b');
      assert a == [a[0]] + a' && b == [b[0]] + b';
    } else {
      SameMembersEmpty(a, b);
    }
  }

  lemma SameMembersEmpty(a: seq<char>, b: seq<char>)
    requires forall c :: c in a <==> c in b
    ensures a == [] <==> b == []
  {
    if a != [] { assert a[0] in a; }
    if b != [] { assert b[0] in b; }
  }

  lemma {:induction false} AscendingDistinct(s: seq<char>)
    requires Ascending(s)
    ensures Distinct(s)
    ensures forall i, j :: 0 <= i < j < |s| ==> s[i] < s[j]
    decreases |s|
  {
    if s != [] {
      var t := s[..|s| - 1];
      assert Ascending(t) by {
        forall i | 0 < i < |t| ensures t[i - 1] < t[i] { assert t[i - 1] == s[i - 1] && t[i] == s[i]; }
      }
      AscendingDistinct(t);
      forall i, j | 0 <= i < j < |s| ensures s[i] < s[j] {
        if j < |s| - 1 {
          assert s[i] == t[i] && s[j] == t[j];
        } else if i < j - 1 {
          assert s[i] == t[i] && t[j - 1] == s[j - 1];
        }
      }
    }
  }

  lemma DistinctConcat(a: seq<char>, b: seq<char>)
    requires Distinct(a) && Distinct(b)
    requires forall c :: c in a ==> c !in b
    ensures Distinct(a + b)
  {
    forall i, j | 0 <= i < j < |a + b| ensures (a + b)[i] != (a + b)[j] {
      if j < |a| {
        assert (a + b)[i] == a[i] && (a + b)[j] == a[j];
      } else if i >= |a| {
        assert (a + b)[i] == b[i - |a|] && (a + b)[j] == b[j - |a|];
      } else {
        assert (a + b)[i] == a[i] && (a + b)[j] == b[j - |a|];
        assert a[i] in a && b[j - |a|] in b;
      }
    }
  }

  lemma LowercaseBlock()
    ensures Distinct(AsciiLowercase)
    ensures forall c :: c in AsciiLowercase <==> IsLower(c)
  {
    assert Ascending(AsciiLowercase);
    AscendingDistinct(AsciiLowercase);
    assert forall i :: 0 <= i < 26 ==> AsciiLowercase[i] as int == 'a' as int + i;
    forall c | IsLower(c) ensures c in AsciiLowercase {
      assert AsciiLowercase[c as int - 'a' as int] == c;
    }
  }

  lemma UppercaseBlock()
    ensures Distinct(AsciiUppercase)
    ensures forall c :: c in AsciiUppercase <==> IsUpper(c)
  {
    assert Ascending(AsciiUppercase);
    AscendingDistinct(AsciiUppercase);
    assert forall i :: 0 <= i < 26 ==> AsciiUppercase[i] as int == 'A' as int + i;
    forall c | IsUpper(c) ensures c in AsciiUppercase {
      assert AsciiUppercase[c as int - 'A' as int] == c;
    }
  }

  lemma DigitsBlock()
    ensures Distinct(Digits)
    ensures forall c :: c in Digits <==> IsDigit(c)
  {
    assert Ascending(Digits);
    AscendingDistinct(Digits);
    assert forall i :: 0 <= i < 10 ==> Digits[i] as int == '0' as int + i;
    forall c | IsDigit(c) ensures c in Digits {
      assert Digits[c as int - '0' as int] == c;
    }
  }

  lemma PunctuationBlock()
    ensures Distinct(Punctuation)
    ensures forall c :: c in Punctuation ==> !IsLower(c) && !IsUpper(c) && !IsDigit(c) && c !in NotAllowed
  {
    assert Ascending(Punctuation);
    AscendingDistinct(Punctuation);
  }
}
