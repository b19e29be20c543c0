/**
 Character-level text operations the unit checker relies on, over strings
 modelled as sequences of Unicode scalar values. Rust's `str` methods work on
 UTF-8 byte offsets; on an already-decoded string the byte offset of a
 character boundary and the index of the character denote the same position,
 so offsets here are character indices.
 */
module Text {
  import opened Wrappers

  /** The bullet glyph (U+25CF BLACK CIRCLE) that `systemctl` puts before a failed unit. */
  const Bullet: char := '\U{25CF}'
  const Space: char := ' '
  const Newline: char := '\n'

  /** Rust's `char::is_whitespace`: the Unicode White_Space property. Among
      ASCII characters that is space, tab, line feed, vertical tab, form feed
      and carriage return; the bullet is never whitespace. */
  predicate IsWhitespace(c: char): (b: bool)
    ensures c < '\U{80}' ==> (b <==> c in {' ', '\t', '\n', '\U{B}', '\U{C}', '\r'})
    ensures b ==> c != Bullet
  {
    || ('\t' <= c <= '\r')
    || c == ' '
    || c == '\U{85}'
    || c == '\U{A0}'
    || c == '\U{1680}'
    || ('\U{2000}' <= c <= '\U{200A}')
    || c == '\U{2028}'
    || c == '\U{2029}'
    || c == '\U{202F}'
    || c == '\U{205F}'
    || c == '\U{3000}'
  }

  /** `s.find(c).unwrap_or(s.len())`: the position of the first `c` in `s`,
      or the length of `s` when `c` does not occur. */
  function FindOrLen(s: string, c: char): (i: nat)
    ensures i <= |s|
    ensures c !in s[..i]
    ensures i < |s| ==> s[i] == c
    ensures i == |s| <==> c !in s
  {
    if |s| == 0 then 0
    else if s[0] == c then 0
    else
      var j := FindOrLen(s[1..], c);
      assert s[..1 + j] == [s[0]] + s[1..][..j];
      1 + j
  }

  /** The first occurrence is the only position that holds `c` with no `c` before it. */
  lemma FindOrLenUnique(s: string, c: char, i: nat)
    requires i < |s| && s[i] == c && c !in s[..i]
    ensures FindOrLen(s, c) == i
  {
    assert s[..i + 1] == s[..i] + [c];
  }

  /** Skipping a prefix free of `c` shifts the first `c` by the prefix's length. */
  lemma FindOrLenAfterPrefix(s: string, c: char, d: nat)
    requires d <= |s| && c !in s[..d]
    ensures FindOrLen(s, c) == d + FindOrLen(s[d..], c)
    ensures s[FindOrLen(s, c)..] == s[d..][FindOrLen(s[d..], c)..]
  {
    var t := s[d..];
    var k := FindOrLen(t, c);
    assert s == s[..d] + t;
    if k < |t| {
      assert s[..d + k] == s[..d] + t[..k];
      FindOrLenUnique(s, c, d + k);
    }
  }

  /** `s.trim_start()`: `s` without its leading whitespace. */
  function TrimStart(s: string): (r: string)
    ensures |r| <= |s| && r == s[|s| - |r|..]
    ensures forall k :: 0 <= k < |s| - |r| ==> IsWhitespace(s[k])
    ensures r == [] || !IsWhitespace(r[0])
  {
    if |s| > 0 && IsWhitespace(s[0]) then TrimStart(s[1..]) else s
  }

  /** What `TrimStart` removes is whitespace, so it holds no bullet. */
  lemma TrimmedHasNoBullet(s: string)
    ensures Bullet !in s[..|s| - |TrimStart(s)|]
  {
    var d := |s| - |TrimStart(s)|;
    assert !IsWhitespace(Bullet);
    forall k | 0 <= k < d
      ensures s[..d][k] != Bullet
    {
      assert IsWhitespace(s[k]);
    }
  }

  /** `s.split_once(c)`: the text before and after the first `c`, or `None`
      when `s` holds no `c`. */
  function SplitOnce(s: string, c: char): (r: Option<(string, string)>)
    ensures r.None? <==> c !in s
    ensures r.Some? ==> r.value.0 + [c] + r.value.1 == s && c !in r.value.0
  {
    var i := FindOrLen(s, c);
    if i == |s| then None
    else
      assert s == s[..i] + [c] + s[i + 1..];
      Some((s[..i], s[i + 1..]))
  }

  /** The split point is determined: any decomposition around a first `c` is the one `SplitOnce` finds. */
  lemma SplitOnceUnique(s: string, c: char, before: string, after: string)
    requires s == before + [c] + after && c !in before
    ensures SplitOnce(s, c) == Some((before, after))
  {
    assert s[|before|] == c;
    assert s[..|before|] == before;
    FindOrLenUnique(s, c, |before|);
    assert s[|before| + 1..] == after;
  }

  // Proof hints. Each lemma below states one fact about sequences that the
  // verifier knows on its own. Calling one at a use site names the instance
  // that is needed, so the solver does not have to search for it among
  // equalities of nested strings, where that search runs out of resource.

  /** A sequence is its prefix followed by the matching suffix. */
  lemma TakeDrop<T>(s: seq<T>, i: nat)
    requires i <= |s|
    ensures s[..i] + s[i..] == s
  {
  }

  /** The two halves of an append are its prefix and its suffix. */
  lemma AppendParts<T>(s: seq<T>, a: seq<T>, b: seq<T>)
    requires s == a + b
    ensures s[..|a|] == a && s[|a|..] == b
  {
  }

  /** Extending a prefix by one element. */
  lemma TakeSnoc<T>(s: seq<T>, k: nat)
    requires k < |s|
    ensures s[..k + 1] == s[..k] + [s[k]]
  {
  }

  /** The prefix of full length is the whole sequence. */
  lemma TakeAll<T>(s: seq<T>)
    ensures s[..|s|] == s
  {
  }

  /** A slice of the first half of an append, read from the whole. */
  lemma SliceOfFirst<T>(s: seq<T>, a: seq<T>, b: seq<T>, lo: nat, hi: nat)
    requires s == a + b && lo <= hi <= |a|
    ensures s[lo..hi] == a[lo..hi]
  {
  }

  /** A slice of the second half of an append, read from the whole. */
  lemma SliceOfSecond<T>(s: seq<T>, a: seq<T>, b: seq<T>, lo: nat, hi: nat)
    requires s == a + b && lo <= hi <= |b|
    ensures s[|a| + lo..|a| + hi] == b[lo..hi]
  {
  }

  /** An element missing from both halves is missing from the append. */
  lemma NotInAppend<T>(x: T, a: seq<T>, b: seq<T>)
    requires x !in a && x !in b
    ensures x !in a + b
  {
  }

  /** The empty sequence is a left unit of append. */
  lemma EmptyAppend<T>(s: seq<T>)
    ensures [] + s == s
  {
  }

  /** Moving the first element of `xs` across an append. */
  lemma AppendFirst<T>(a: seq<T>, xs: seq<T>)
    requires xs != []
    ensures (a + [xs[0]]) + xs[1..] == a + xs
  {
    assert xs == [xs[0]] + xs[1..];
  }

  /** Every item of `xs` followed by `sep`, in order: what pushing each item and
      then the separator onto a buffer builds. */
  function Suffixed(xs: seq<string>, sep: string): (r: string)
    ensures |r| == Offset(xs, sep, |xs|)
  {
    if xs == [] then [] else xs[0] + sep + Suffixed(xs[1..], sep)
  }

  /** Where item `i` starts in `Suffixed(xs, sep)`: the lengths of the earlier
      items, each with its separator. */
  function Offset(xs: seq<string>, sep: string, i: nat): nat
    requires i <= |xs|
  {
    if i == 0 then 0 else |xs[0]| + |sep| + Offset(xs[1..], sep, i - 1)
  }

  /** Appending one item to the list appends it and its separator to the text. */
  lemma {:induction false} SuffixedSnoc(xs: seq<string>, x: string, sep: string)
    ensures Suffixed(xs + [x], sep) == Suffixed(xs, sep) + x + sep
  {
    if xs == [] {
      assert xs + [x] == [x];
    } else {
      assert (xs + [x])[1..] == xs[1..] + [x];
      SuffixedSnoc(xs[1..], x, sep);
    }
  }

  /** Item `i` and its separator sit at `Offset(xs, sep, i)` of the text,
      so every item occurs, in list order, each followed by `sep`. */
  lemma {:induction false} SuffixedLayout(xs: seq<string>, sep: string, i: nat)
    requires i < |xs|
    ensures Offset(xs, sep, i) + |xs[i]| + |sep| <= |Suffixed(xs, sep)|
    ensures Suffixed(xs, sep)[Offset(xs, sep, i)..Offset(xs, sep, i) + |xs[i]| + |sep|] == xs[i] + sep
  {
    var head := xs[0] + sep;
    var r' := Suffixed(xs[1..], sep);
    if i == 0 {
      SliceOfFirst(head + r', head, r', 0, |head|);
    } else {
      SuffixedLayout(xs[1..], sep, i - 1);
      var o := Offset(xs[1..], sep, i - 1);
      assert xs[1..][i - 1] == xs[i];
      SliceOfSecond(head + r', head, r', o, o + |xs[i]| + |sep|);
    }
  }
}
