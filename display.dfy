/**
  * `make_bold` (tactf.py, lines 18-19): the verbose trace highlights the
  * position being resolved by wrapping it in the ECMA-48 "select graphic
  * rendition" controls for bold (SGR 1) and reset (SGR 0), section 8.3.117
  * of ECMA-48.
  */
module Display {
  /** ESC [ 1 m */
  const BoldOn: string := "\U{1B}[1m"
  /** ESC [ 0 m */
  const Reset: string := "\U{1B}[0m"

  /** `text` with the character at `index` wrapped in the bold and reset escapes. */
  function MakeBold(text: string, index: nat): (r: string)
    requires index < |text|
    ensures |r| == |text| + |BoldOn| + |Reset| == |text| + 8
    ensures r[..index] == text[..index] && r[index + 9..] == text[index + 1..]
    ensures r[index..index + 4] == BoldOn && r[index + 4] == text[index] && r[index + 5..index + 9] == Reset
  {
    text[..index] + BoldOn + [text[index]] + Reset + text[index + 1..]
  }

  /** `r` carries the two escapes around its character at `index`. */
  predicate IsBoldAt(r: string, index: nat) {
    index + 9 <= |r| && r[index..index + 4] == BoldOn && r[index + 5..index + 9] == Reset
  }

  /** Deletes the bold and reset escapes around the character at `index`. */
  function Unbold(r: string, index: nat): (text: string)
    requires index + 9 <= |r|
    ensures |text| == |r| - 8
  {
    r[..index] + [r[index + 4]] + r[index + 9..]
  }

  /** Deleting the two escapes again gives back the text. */
  lemma UnboldMakeBold(text: string, index: nat)
    requires index < |text|
    ensures IsBoldAt(MakeBold(text, index), index)
    ensures Unbold(MakeBold(text, index), index) == text
  {
    assert text == text[..index] + [text[index]] + text[index + 1..];
  }

  /** Every string with the escapes around `index` is the bold form of its unbolded text. */
  lemma MakeBoldUnbold(r: string, index: nat)
    requires IsBoldAt(r, index)
    ensures index < |Unbold(r, index)|
    ensures MakeBold(Unbold(r, index), index) == r
  {
    var t := Unbold(r, index);
    assert t[..index] == r[..index];
    assert t[index + 1..] == r[index + 9..];
    assert r == r[..index] + r[index..index + 4] + [r[index + 4]] + r[index + 5..index + 9] + r[index + 9..];
  }
}
