/**
 Extraction of the generated program from a chat reply (the "simple parser"
 in `generate_response`): prefer the first block opened with "```python",
 fall back to the first block opened with a bare "```", and take the text up
 to the closing "```" (or to the end of the reply when the block is unclosed).
 */
module Extraction {
  import opened Wrappers
  import opened Text

  const PythonFence: string := "```python"
  const Fence: string := "```"

  /**
   `code` is the body of a fenced block whose opening marker ends at `start`:
   it is the reply's text from `start` on, no fence starts inside it, and it
   is followed by a fence or by the end of the reply.
   */
  predicate IsBodyAt(reply: string, start: nat, code: string) {
    && start + |code| <= |reply|
    && reply[start..start + |code|] == code
    && (forall j: nat :: start <= j < start + |code| ==> !OccursAt(reply, Fence, j))
    && (start + |code| == |reply| || OccursAt(reply, Fence, start + |code|))
  }

  /** At most one text is the body of the block opened at `start`. */
  lemma BodyUnique(reply: string, start: nat, c1: string, c2: string)
    requires IsBodyAt(reply, start, c1) && IsBodyAt(reply, start, c2)
    ensures c1 == c2
  {
  }

  /** Every "```python" marker begins with a bare fence. */
  lemma PythonFenceIsFence(s: string, i: nat)
    requires OccursAt(s, PythonFence, i)
    ensures OccursAt(s, Fence, i)
  {
    assert s[i..i + 3] == s[i..i + 9][..3];
  }

  /** A reply with a "```python" marker contains a bare fence. */
  lemma ContainsFence(s: string)
    ensures Contains(s, PythonFence) ==> Contains(s, Fence)
  {
    if Contains(s, PythonFence) {
      var i: nat :| i <= |s| && OccursAt(s, PythonFence, i);
      PythonFenceIsFence(s, i);
    }
  }

  /** The text from `start` up to the next fence, or to the end of the reply. */
  function Body(reply: string, start: nat): (code: string)
    requires start <= |reply|
    ensures IsBodyAt(reply, start, code)
  {
    var e := FindOrEnd(reply, Fence, start);
    assert reply[start..start + (e - start)] == reply[start..e];
    reply[start..e]
  }

  /**
   The extraction as written in the source:
   `reply.split("```python")[1].split("```")[0]`, else
   `reply.split("```")[1].split("```")[0]`, else the empty string.
   */
  function ExtractCode(reply: string): (code: string)
    ensures !Contains(code, Fence)
    ensures !Contains(reply, Fence) ==> code == ""
  {
    ContainsFence(reply);
    if Contains(reply, PythonFence) then
      var seg := Split(reply, PythonFence)[1];
      SplitPiecesFree(seg, Fence);
      Split(seg, Fence)[0]
    else if Contains(reply, Fence) then
      var seg := Split(reply, Fence)[1];
      SplitPiecesFree(seg, Fence);
      Split(seg, Fence)[0]
    else ""
  }

  /**
   The extraction the source evidently intends: the body of the first
   "```python" block, else of the first bare "```" block, else nothing.
   */
  function ExtractIntended(reply: string): (code: string)
    ensures forall k: nat :: FirstAt(reply, PythonFence, k) ==> IsBodyAt(reply, k + |PythonFence|, code)
    ensures !Contains(reply, PythonFence) ==>
              forall k: nat :: FirstAt(reply, Fence, k) ==> IsBodyAt(reply, k + |Fence|, code)
    ensures !Contains(reply, Fence) ==> code == ""
  {
    ContainsIffFound(reply, PythonFence);
    ContainsIffFound(reply, Fence);
    match Find(reply, PythonFence, 0)
    case Some(k) =>
      assert forall k': nat :: FirstAt(reply, PythonFence, k') ==> k' == k;
      PythonFenceIsFence(reply, k);
      Body(reply, k + |PythonFence|)
    case None =>
      match Find(reply, Fence, 0)
      case Some(k) =>
        assert forall k': nat :: FirstAt(reply, Fence, k') ==> k' == k;
        Body(reply, k + |Fence|)
      case None => ""
  }

  /**
   The bare-fence fallback of the source takes exactly the text between the
   first and the second "```" (or to the end when there is no second one).
   */
  lemma {:induction false} FallbackIsBody(reply: string, k: nat)
    requires !Contains(reply, PythonFence) && FirstAt(reply, Fence, k)
    ensures IsBodyAt(reply, k + |Fence|, ExtractCode(reply))
    ensures ExtractCode(reply) == ExtractIntended(reply)
  {
    FirstIsFound(reply, Fence, k);
    assert Contains(reply, Fence);
    SplitSecond(reply, Fence, k);
    var seg := Split(reply, Fence)[1];
    SplitPiecesFree(reply, Fence);
    SplitAbsent(seg, Fence);
    assert ExtractCode(reply) == seg;
    assert seg == Body(reply, k + |Fence|);
    ContainsIffFound(reply, PythonFence);
  }

  /** Where the next fence after `start` begins (or the end of the reply). */
  function NextFence(reply: string, start: nat): nat {
    FindOrEnd(reply, Fence, start)
  }

  /** Where the next "```python" marker after `start` begins (or the end of the reply). */
  function NextPythonFence(reply: string, start: nat): nat {
    FindOrEnd(reply, PythonFence, start)
  }

  /**
   The closing fence after `start` runs into the next "```python" marker
   without being its start, as in "ab````python": the closing "```" starts
   one or two characters before that marker.
   */
  predicate Straddles(reply: string, start: nat) {
    NextFence(reply, start) < NextPythonFence(reply, start) < NextFence(reply, start) + |Fence|
  }

  /** The next fence comes no later than the next "```python" marker. */
  lemma FenceBeforePythonFence(reply: string, start: nat)
    requires start <= |reply|
    ensures start <= NextFence(reply, start) <= NextPythonFence(reply, start) <= |reply|
  {
    if Find(reply, PythonFence, start).Some? {
      PythonFenceIsFence(reply, NextPythonFence(reply, start));
    }
  }

  /**
   Cutting `reply[start..e]` at its first fence: a fence that ends by `e`
   is found, one that runs past `e` is not.
   */
  lemma CutSegment(reply: string, start: nat, e: nat)
    requires start <= NextFence(reply, start) <= e <= |reply|
    ensures var f := NextFence(reply, start);
            Split(reply[start..e], Fence)[0] == reply[start..if f + |Fence| <= e then f else e]
  {
    if NextFence(reply, start) + |Fence| <= e {
      CutAtFence(reply, start, e);
    } else {
      CutAtEnd(reply, start, e);
    }
  }

  /** A segment holding the whole next fence is cut just before it. */
  lemma CutAtFence(reply: string, start: nat, e: nat)
    requires start <= NextFence(reply, start) && NextFence(reply, start) + |Fence| <= e <= |reply|
    ensures Split(reply[start..e], Fence)[0] == reply[start..NextFence(reply, start)]
  {
    var f := NextFence(reply, start);
    var seg := reply[start..e];
    var j0: nat := f - start;
    assert OccursAt(reply, Fence, f);
    OccursInSlice(reply, Fence, start, e, j0);
    forall j: nat | j < j0
      ensures !OccursAt(seg, Fence, j)
    {
      OccursInSlice(reply, Fence, start, e, j);
    }
    FindFirst(seg, Fence, 0, j0);
    assert seg[..j0] == reply[start..f];
  }

  /** A segment that ends before the next fence is complete is kept whole. */
  lemma CutAtEnd(reply: string, start: nat, e: nat)
    requires start <= NextFence(reply, start) <= e <= |reply| && e < NextFence(reply, start) + |Fence|
    ensures Split(reply[start..e], Fence)[0] == reply[start..e]
  {
    var seg := reply[start..e];
    forall j: nat
      ensures !OccursAt(seg, Fence, j)
    {
      OccursInSlice(reply, Fence, start, e, j);
    }
    ContainsIffFound(seg, Fence);
    assert seg[..|seg|] == seg;
  }

  /**
   What the source's "```python" branch actually returns: the text after the
   first marker, cut at the next fence if that fence ends before the next
   "```python" marker, and otherwise cut at that marker.
   */
  lemma {:induction false} PythonBranchAsWritten(reply: string, k: nat)
    requires FirstAt(reply, PythonFence, k)
    ensures var start := k + |PythonFence|;
            var f := NextFence(reply, start);
            var e := NextPythonFence(reply, start);
            start <= f <= e <= |reply| &&
            ExtractCode(reply) == reply[start..if f + |Fence| <= e then f else e]
  {
    var start := k + |PythonFence|;
    var e := NextPythonFence(reply, start);
    FirstIsFound(reply, PythonFence, k);
    assert Contains(reply, PythonFence);
    SplitSecond(reply, PythonFence, k);
    assert ExtractCode(reply) == Split(reply[start..e], Fence)[0];
    FenceBeforePythonFence(reply, start);
    CutSegment(reply, start, e);
  }

  /**
   Unless the closing fence straddles a following "```python" marker, the
   source's "```python" branch takes exactly the body of the first block.
   */
  lemma {:induction false} PythonBranchIsBody(reply: string, k: nat)
    requires FirstAt(reply, PythonFence, k) && !Straddles(reply, k + |PythonFence|)
    ensures IsBodyAt(reply, k + |PythonFence|, ExtractCode(reply))
    ensures ExtractCode(reply) == ExtractIntended(reply)
  {
    var start := k + |PythonFence|;
    var f := NextFence(reply, start);
    PythonBranchAsWritten(reply, k);
    assert ExtractCode(reply) == reply[start..f] by {
      if f + |Fence| > NextPythonFence(reply, start) {
        assert NextPythonFence(reply, start) == f;
      }
    }
    PythonFenceIsFence(reply, k);
    assert ExtractCode(reply) == Body(reply, start);
    BodyUnique(reply, start, ExtractCode(reply), ExtractIntended(reply));
  }

  /** The two extractions differ only on replies where the closing fence straddles a "```python" marker. */
  lemma {:induction false} AgreeUnlessStraddles(reply: string)
    ensures ExtractCode(reply) != ExtractIntended(reply) ==>
              exists k: nat :: FirstAt(reply, PythonFence, k) && Straddles(reply, k + |PythonFence|)
  {
    ContainsIffFound(reply, PythonFence);
    ContainsIffFound(reply, Fence);
    match Find(reply, PythonFence, 0)
    case Some(k) =>
      assert FirstAt(reply, PythonFence, k);
      if !Straddles(reply, k + |PythonFence|) {
        PythonBranchIsBody(reply, k);
      }
    case None =>
      match Find(reply, Fence, 0)
      case Some(k) =>
        assert FirstAt(reply, Fence, k);
        FallbackIsBody(reply, k);
      case None =>
  }

  /**
   Conversely, whenever the closing fence straddles the next "```python"
   marker, the source keeps the one or two backticks before that marker:
   its result runs past the first block's body.
   */
  lemma StraddlesDisagree(reply: string, k: nat)
    requires FirstAt(reply, PythonFence, k) && Straddles(reply, k + |PythonFence|)
    ensures var start := k + |PythonFence|;
            ExtractCode(reply) == reply[start..NextPythonFence(reply, start)]
    ensures ExtractIntended(reply) == reply[k + |PythonFence|..NextFence(reply, k + |PythonFence|)]
    ensures ExtractCode(reply) != ExtractIntended(reply)
  {
    var start := k + |PythonFence|;
    PythonBranchAsWritten(reply, k);
    PythonFenceIsFence(reply, k);
    BodyUnique(reply, start, Body(reply, start), ExtractIntended(reply));
    assert |ExtractCode(reply)| != |ExtractIntended(reply)|;
  }

  /** A reply whose closing fence of four backticks is glued to a second "```python" marker. */
  const StrayReply: string := PythonFence + "ab`" + PythonFence

  lemma StrayNextFence()
    ensures NextFence(StrayReply, 9) == 11
  {
    var reply := StrayReply;
    Mismatch(reply, Fence, 9, 0);
    Mismatch(reply, Fence, 10, 0);
    assert OccursAt(reply, Fence, 11) by { assert reply[11..14] == Fence; }
    FindFirst(reply, Fence, 9, 11);
  }

  lemma StrayNextPythonFence()
    ensures NextPythonFence(StrayReply, 9) == 12
  {
    var reply := StrayReply;
    Mismatch(reply, PythonFence, 9, 0);
    Mismatch(reply, PythonFence, 10, 0);
    Mismatch(reply, PythonFence, 11, 3);
    OccursAtEnd(PythonFence + "ab`", PythonFence);
    FindFirst(reply, PythonFence, 9, 12);
  }

  /** On that reply the source keeps a stray backtick ... */
  lemma StrayAsWritten(reply: string)
    requires reply == StrayReply
    ensures ExtractCode(reply) == "ab`"
  {
    assert FirstAt(reply, PythonFence, 0) by {
      assert reply[0..9] == PythonFence;
    }
    assert reply[9..12] == "ab`";
    StrayNextFence();
    StrayNextPythonFence();
    PythonBranchAsWritten(reply, 0);
  }

  /** ... where the intended extraction does not. */
  lemma StrayIntended(reply: string)
    requires reply == StrayReply
    ensures ExtractIntended(reply) == "ab"
  {
    assert reply[0..9] == PythonFence;
    assert FirstAt(reply, PythonFence, 0);
    StrayNextFence();
    assert IsBodyAt(reply, 9, "ab");
  }
}
