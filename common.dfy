/** Small shared vocabulary: optional values, bytes, and a character search on strings. */
module Common {

  datatype Option<+T> = None | Some(value: T)

  /** A file's content is a sequence of bytes. */
  newtype byte = b: int | 0 <= b < 0x100
  type Bytes = seq<byte>

  /** Position of the first `c` in `s`, or `|s|` when `s` has none. */
  function IndexOf(s: string, c: char): (k: nat)
    ensures k <= |s|
    ensures k < |s| ==> s[k] == c
    ensures forall j :: 0 <= j < k ==> s[j] != c
  {
    if s == [] then 0
    else if s[0] == c then 0
    else 1 + IndexOf(s[1..], c)
  }

  /** Searching `a + [c] + b` for `c` stops at the end of `a` when `a` has no `c`. */
  lemma IndexOfAfter(a: string, c: char, b: string)
    requires c !in a
    ensures IndexOf(a + [c] + b, c) == |a|
  {
    var s := a + [c] + b;
    assert s[|a|] == c;
    assert forall j :: 0 <= j < |a| ==> s[j] == a[j];
  }
}
