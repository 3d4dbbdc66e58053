/**
 Substring search and separator splitting with the semantics of Python's
 `in`, `str.find` and `str.split(sep)` on strings. All other modules build
 on these definitions.
 */
module Text {
  import opened Wrappers

  /** `p` occurs in `s` starting at index `i`. */
  predicate OccursAt(s: string, p: string, i: nat) {
    i + |p| <= |s| && s[i..i + |p|] == p
  }

  /** Python's `p in s`. */
  predicate Contains(s: string, p: string) {
    exists i: nat :: i <= |s| && OccursAt(s, p, i)
  }

  /** `k` is the first occurrence of `p` in `s`. */
  predicate FirstAt(s: string, p: string, k: nat) {
    OccursAt(s, p, k) && forall j: nat :: j < k ==> !OccursAt(s, p, j)
  }

  /** Python's `s.find(p, from)`: the first occurrence of `p` at or after `from`. */
  function Find(s: string, p: string, from: nat): (r: Option<nat>)
    ensures r.Some? ==> from <= r.value && OccursAt(s, p, r.value)
    ensures r.Some? ==> forall j: nat :: from <= j < r.value ==> !OccursAt(s, p, j)
    ensures r.None? ==> forall j: nat :: from <= j ==> !OccursAt(s, p, j)
    decreases |s| - from
  {
    if from + |p| > |s| then None
    else if s[from..from + |p|] == p then Some(from)
    else Find(s, p, from + 1)
  }

  /** Where the occurrence found from `from` starts, or the end of `s` when there is none. */
  function FindOrEnd(s: string, p: string, from: nat): (e: nat)
    ensures from <= |s| ==> from <= e <= |s|
  {
    match Find(s, p, from)
    case Some(k) => k
    case None => |s|
  }

  /** An occurrence with none before it (from `from` on) is the one `Find` returns. */
  lemma FindFirst(s: string, p: string, from: nat, k: nat)
    requires from <= k && OccursAt(s, p, k)
    requires forall j: nat :: from <= j < k ==> !OccursAt(s, p, j)
    ensures Find(s, p, from) == Some(k)
  {
  }

  /** The first occurrence in the whole text is what a search from the start finds. */
  lemma FirstIsFound(s: string, p: string, k: nat)
    requires FirstAt(s, p, k)
    ensures Find(s, p, 0) == Some(k)
  {
    FindFirst(s, p, 0, k);
  }

  /** Python's `p in s` holds exactly when `s.find(p)` finds something. */
  lemma ContainsIffFound(s: string, p: string)
    ensures Contains(s, p) <==> Find(s, p, 0).Some?
  {
    if Find(s, p, 0).Some? {
      assert OccursAt(s, p, Find(s, p, 0).value);
    }
  }

  /** An occurrence inside the slice `s[a..b]` is an occurrence in `s` that ends by `b`. */
  lemma OccursInSlice(s: string, p: string, a: nat, b: nat, j: nat)
    requires a <= b <= |s|
    ensures OccursAt(s[a..b], p, j) <==> (a + j + |p| <= b && OccursAt(s, p, a + j))
  {
    if j + |p| <= b - a {
      var t := s[a..b];
      assert t[j..] == s[a + j..b];
      assert t[j..j + |p|] == t[j..][..|p|];
      assert s[a + j..a + j + |p|] == s[a + j..b][..|p|];
    }
  }

  /** `b` occurs at the end of `a + b`. */
  lemma OccursAtEnd(a: string, b: string)
    ensures OccursAt(a + b, b, |a|)
  {
    assert (a + b)[|a|..|a| + |b|] == b;
  }

  /** One mismatching character rules an occurrence out. */
  lemma Mismatch(s: string, p: string, i: nat, j: nat)
    requires j < |p| && i + j < |s| && s[i + j] != p[j]
    ensures !OccursAt(s, p, i)
  {
    if i + |p| <= |s| {
      assert s[i..i + |p|][j] == s[i + j];
    }
  }

  /** A slice with no occurrence starting inside it contains no occurrence. */
  lemma SliceFree(s: string, p: string, a: nat, b: nat)
    requires |p| > 0 && a <= b <= |s|
    requires forall j: nat :: a <= j < b ==> !OccursAt(s, p, j)
    ensures !Contains(s[a..b], p)
  {
    forall j: nat
      ensures !OccursAt(s[a..b], p, j)
    {
      OccursInSlice(s, p, a, b, j);
    }
  }

  /** Python's `sep.join(parts)`. */
  function Join(parts: seq<string>, sep: string): string
  {
    if |parts| == 0 then ""
    else if |parts| == 1 then parts[0]
    else parts[0] + sep + Join(parts[1..], sep)
  }

  /** The pieces of `s[from..]` between successive non-overlapping occurrences of `sep`, scanning left to right. */
  function SplitFrom(s: string, sep: string, from: nat): (r: seq<string>)
    requires |sep| > 0 && from <= |s|
    ensures |r| >= 1
    ensures r[0] == s[from..FindOrEnd(s, sep, from)]
    ensures |r| >= 2 <==> Find(s, sep, from).Some?
    decreases |s| - from
  {
    match Find(s, sep, from)
    case None => [s[from..]]
    case Some(k) => [s[from..k]] + SplitFrom(s, sep, k + |sep|)
  }

  /** One step of the split: the piece before the occurrence at `k`, then the split of the rest. */
  lemma SplitFromStep(s: string, sep: string, from: nat, k: nat)
    requires |sep| > 0 && from <= |s| && Find(s, sep, from) == Some(k)
    ensures k + |sep| <= |s|
    ensures SplitFrom(s, sep, from) == [s[from..k]] + SplitFrom(s, sep, k + |sep|)
  {
    assert OccursAt(s, sep, k);
    var rest := SplitFrom(s, sep, k + |sep|);
    assert SplitFrom(s, sep, from) == [s[from..k]] + rest;
  }

  /** Joining the pieces of `s[from..]` with the separator gives `s[from..]` back. */
  lemma {:induction false} SplitFromJoin(s: string, sep: string, from: nat)
    requires |sep| > 0 && from <= |s|
    ensures Join(SplitFrom(s, sep, from), sep) == s[from..]
    decreases |s| - from
  {
    match Find(s, sep, from)
    case None =>
    case Some(k) =>
      var m := k + |sep|;
      var rest := SplitFrom(s, sep, m);
      SplitFromStep(s, sep, from, k);
      SplitFromJoin(s, sep, m);
      var r := [s[from..k]] + rest;
      assert r[1..] == rest;
      assert Join(r, sep) == s[from..k] + sep + Join(rest, sep);
      SliceAt(s, from, k);
      SliceAt(s, k, m);
      assert s[k..m] == sep;
      AppendTail(s[from..k], sep, s[m..]);
  }

  /** No piece of a split contains the separator. */
  lemma {:induction false} SplitFromPiecesFree(s: string, sep: string, from: nat)
    requires |sep| > 0 && from <= |s|
    ensures forall i :: 0 <= i < |SplitFrom(s, sep, from)| ==> !Contains(SplitFrom(s, sep, from)[i], sep)
    decreases |s| - from
  {
    var r := SplitFrom(s, sep, from);
    match Find(s, sep, from)
    case None =>
      SliceFree(s, sep, from, |s|);
      assert s[from..|s|] == s[from..];
    case Some(k) =>
      SliceFree(s, sep, from, k);
      SplitFromPiecesFree(s, sep, k + |sep|);
      SplitFromStep(s, sep, from, k);
  }

  /**
   Python's `s.split(sep)`: the first piece is the text before the first
   occurrence of `sep` (all of `s` when there is none), and there is more
   than one piece exactly when `sep` occurs in `s`.
   */
  function Split(s: string, sep: string): (r: seq<string>)
    requires |sep| > 0
    ensures |r| >= 1
    ensures r[0] == s[..FindOrEnd(s, sep, 0)]
    ensures |r| >= 2 <==> Contains(s, sep)
  {
    ContainsIffFound(s, sep);
    SplitFrom(s, sep, 0)
  }

  /** Round trip: joining the pieces of a split with the separator gives the text back. */
  lemma SplitJoin(s: string, sep: string)
    requires |sep| > 0
    ensures Join(Split(s, sep), sep) == s
  {
    SplitFromJoin(s, sep, 0);
    assert s[0..] == s;
  }

  /** No piece of a split contains the separator. */
  lemma SplitPiecesFree(s: string, sep: string)
    requires |sep| > 0
    ensures forall i :: 0 <= i < |Split(s, sep)| ==> !Contains(Split(s, sep)[i], sep)
  {
    SplitFromPiecesFree(s, sep, 0);
  }

  /** The second piece of a split is the text between the first and second occurrences (or the end). */
  lemma SplitSecond(s: string, sep: string, k: nat)
    requires |sep| > 0 && Find(s, sep, 0) == Some(k)
    ensures |Split(s, sep)| >= 2
    ensures Split(s, sep)[1] == s[k + |sep|..FindOrEnd(s, sep, k + |sep|)]
  {
    SplitFromStep(s, sep, 0, k);
    var rest := SplitFrom(s, sep, k + |sep|);
    assert Split(s, sep)[1] == rest[0];
  }

  /** Splitting text that does not contain the separator yields the text alone. */
  lemma SplitAbsent(s: string, sep: string)
    requires |sep| > 0 && !Contains(s, sep)
    ensures Split(s, sep) == [s]
  {
  }

  /** `b` occurs in `a + b + c` right after `a`. */
  lemma OccursInMiddle(a: string, b: string, c: string)
    ensures OccursAt(a + b + c, b, |a|)
  {
    assert (a + b + c)[|a|..|a| + |b|] == b;
  }

  /** Text found in the middle piece is found in the whole. */
  lemma ContainsInMiddle(a: string, b: string, c: string, p: string)
    requires Contains(b, p)
    ensures Contains(a + b + c, p)
  {
    var i: nat :| i <= |b| && OccursAt(b, p, i);
    assert (a + b + c)[|a| + i..|a| + i + |p|] == b[i..i + |p|];
    assert OccursAt(a + b + c, p, |a| + i);
  }

  /** Where `p + q` occurs, `p` occurs. */
  lemma ContainsPrefix(s: string, p: string, q: string)
    requires Contains(s, p + q)
    ensures Contains(s, p)
  {
    var i: nat :| i <= |s| && OccursAt(s, p + q, i);
    assert s[i..i + |p|] == s[i..i + |p + q|][..|p|];
    assert OccursAt(s, p, i);
  }

  // Sequence algebra used by the splice proofs.

  /** Text put back where it was taken out restores the whole. */
  lemma PutBack(r: string, i: nat, n: nat, c: string)
    requires i + n <= |r| && RemoveAt(r, i, n) == c
    ensures r == c[..i] + r[i..i + n] + c[i..]
  {
    assert c[..i] == r[..i];
    assert c[i..] == r[i + n..];
    assert r == r[..i] + r[i..i + n] + r[i + n..];
  }

  /** `s` with the `n` characters at `i` taken out. */
  function RemoveAt(s: string, i: nat, n: nat): string
    requires i + n <= |s|
  {
    s[..i] + s[i + n..]
  }

  /** A known prefix can be cut off again. */
  lemma DropPrefix(a: string, b: string, c: string, s: string)
    requires a + b + c == s
    ensures b + c == s[|a|..]
  {
    assert s[|a|..] == (a + (b + c))[|a|..];
  }

  /** Moving a newline from one piece to the next. */
  lemma Regroup(a: string, b: string, x: string)
    ensures a + b + ("\n" + x) == a + (b + "\n") + x
  {
  }

  /** `ins` placed between `a` and `b` sits at `|a|`, and taking it out leaves `a + b`. */
  lemma InsertShape(a: string, ins: string, b: string)
    ensures var r := a + ins + b;
            r[|a|..|a| + |ins|] == ins && RemoveAt(r, |a|, |ins|) == a + b
  {
    var r := a + ins + b;
    assert r[..|a|] == a;
    assert r[|a| + |ins|..] == b;
  }

  /** A string is its prefix followed by its suffix. */
  lemma SplitAt(s: string, n: nat)
    requires n <= |s|
    ensures s == s[..n] + s[n..]
  {
  }

  /** Regrouping a key and the text after it. */
  lemma Reassemble(a: string, b: string, key: string, mid: string, whole: string)
    requires whole == key + mid
    ensures a + b + ("\n" + key + mid) == a + b + "\n" + whole
  {
  }

  /** A suffix is its slice up to `e` followed by the suffix from `e`. */
  lemma SliceAt(s: string, k: nat, e: nat)
    requires k <= e <= |s|
    ensures s[k..] == s[k..e] + s[e..]
  {
  }

  /** What keeping `s` only up to `e` loses, compared with keeping all of it from `k` on, is `s[e..]`. */
  lemma TailLost(front: string, s: string, k: nat, e: nat, kept: string, whole: string)
    requires k <= e <= |s|
    requires kept == front + s[k..e] && whole == front + s[k..]
    ensures whole == kept + s[e..]
  {
    SliceAt(s, k, e);
    AppendTail(front, s[k..e], s[e..]);
  }

  /** Concatenation is associative (stated as a lemma to keep callers' proofs small). */
  lemma AppendTail(front: string, mid: string, tail: string)
    ensures front + (mid + tail) == (front + mid) + tail
  {
  }
}
