/** Searching and slicing helpers over the decoder's input text. Each `char`
    stands for one byte of the input, so an index into the sequence is the
    byte index that Rust's `str::find` and slicing use. */
module Text {

  import opened Wrappers

  /** `str::find` for a single character: the index of its first occurrence. */
  function Find(s: string, c: char): (r: Option<nat>)
    ensures r.None? <==> c !in s
    ensures r.Some? ==> r.value < |s| && s[r.value] == c && c !in s[..r.value]
  {
    if |s| == 0 then None
    else if s[0] == c then Some(0)
    else
      match Find(s[1..], c)
      case None => None
      case Some(k) =>
        assert s[..k + 1] == [s[0]] + s[1..][..k];
        Some(k + 1)
  }

  /** The first occurrence is unique: any index with `c` and no earlier `c` is it. */
  lemma FindIsFirst(s: string, c: char, k: nat)
    requires k < |s| && s[k] == c && c !in s[..k]
    ensures Find(s, c) == Some(k)
  {
  }

  /** `t` is what is left of `s` after a non-empty prefix has been consumed. */
  predicate IsProperSuffix(t: string, s: string)
  {
    |t| < |s| && s[|s| - |t|..] == t
  }

  lemma SuffixTransitive(u: string, t: string, s: string)
    requires IsProperSuffix(u, t) && IsProperSuffix(t, s)
    ensures IsProperSuffix(u, s)
  {
    assert s[|s| - |u|..] == s[|s| - |t|..][|t| - |u|..];
  }

  /** Regrouping a concatenation; stated once so that proofs about the
      decoder need not redo sequence extensionality. */
  lemma Regroup3(a: string, b: string, c: string)
    ensures a + b + c == a + (b + c)
  {
  }

  lemma Regroup4(a: string, b: string, c: string, d: string)
    ensures a + b + c + d == a + (b + (c + d))
  {
  }

  /** A one-character marker in front of `x`. */
  lemma DropMarker(m: string, x: string)
    requires |m| == 1
    ensures |m + x| > 0 && (m + x)[0] == m[0] && (m + x)[1..] == x
  {
  }
}
