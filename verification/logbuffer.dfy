/**
 The bounded log buffer filled by the reader thread of the sandboxed
 process: each captured line is appended, and when the buffer then holds
 more than `MaxLines` lines its oldest line is dropped.
 */
module LogBuffer {

  /** The retention bound checked after every append. */
  const MaxLines: nat := 100

  /** The most recent `n` entries of `stream` (all of it when it is shorter), in order. */
  function Recent<T>(stream: seq<T>, n: nat): (r: seq<T>)
  {
    if |stream| <= n then stream else stream[|stream| - n..]
  }

  /** One step of the reader thread: append `line`, then evict the head if over the bound. */
  function Append(logs: seq<string>, line: string): (r: seq<string>)
    ensures |logs| <= MaxLines ==> |r| <= MaxLines
    ensures |r| > 0 && r[|r| - 1] == line
    ensures |logs| < MaxLines ==> r == logs + [line]
    ensures |logs| == MaxLines ==> r == logs[1..] + [line]
    ensures |logs| <= MaxLines ==> r == Recent(logs + [line], MaxLines)
  {
    var appended := logs + [line];
    if |appended| > MaxLines then appended[1..] else appended
  }

  /** The reader thread appending a stream of lines, one at a time. */
  function AppendAll(logs: seq<string>, lines: seq<string>): (r: seq<string>)
    ensures |logs| <= MaxLines ==> |r| <= MaxLines
    ensures |lines| > 0 ==> |r| > 0 && r[|r| - 1] == lines[|lines| - 1]
    ensures |lines| == 0 ==> r == logs
    decreases |lines|
  {
    if |lines| == 0 then logs else AppendAll(Append(logs, lines[0]), lines[1..])
  }

  /** Taking the recent part of a prefix first does not change the recent part of the whole. */
  lemma RecentOfRecent<T>(xs: seq<T>, ys: seq<T>, n: nat)
    ensures Recent(Recent(xs, n) + ys, n) == Recent(xs + ys, n)
  {
    if |xs| > n {
      var cut := |xs| - n;
      var kept := xs[cut..] + ys;
      var whole := xs + ys;
      assert Recent(xs, n) == xs[cut..];
      DropConcat(xs, ys, cut);
      assert whole[cut..] == kept;
      if |ys| == 0 {
        assert Recent(kept, n) == kept;
        assert Recent(whole, n) == whole[cut..];
      } else {
        assert Recent(kept, n) == kept[|ys|..];
        assert Recent(whole, n) == whole[cut + |ys|..];
        DropDrop(whole, cut, |ys|);
      }
    }
  }

  /** Dropping a prefix of the left operand of a concatenation. */
  lemma DropConcat<T>(xs: seq<T>, ys: seq<T>, c: nat)
    requires c <= |xs|
    ensures (xs + ys)[c..] == xs[c..] + ys
  {
  }

  /** Appending a non-empty sequence is appending its head and then its tail. */
  lemma HeadTail<T>(xs: seq<T>, ys: seq<T>)
    requires |ys| > 0
    ensures xs + [ys[0]] + ys[1..] == xs + ys
  {
    assert [ys[0]] + ys[1..] == ys;
  }

  /** Dropping `a` elements and then `b` more is dropping `a + b`. */
  lemma DropDrop<T>(s: seq<T>, a: nat, b: nat)
    requires a + b <= |s|
    ensures s[a..][b..] == s[a + b..]
  {
  }

  /**
   Starting from a buffer within the bound, appending any stream of lines
   leaves exactly the most recent `MaxLines` lines of everything seen, in
   order: a FIFO window whose oldest lines are evicted first.
   */
  lemma {:induction false} AppendAllIsWindow(logs: seq<string>, lines: seq<string>)
    requires |logs| <= MaxLines
    ensures AppendAll(logs, lines) == Recent(logs + lines, MaxLines)
    ensures |AppendAll(logs, lines)| <= MaxLines
    decreases |lines|
  {
    if |lines| == 0 {
      assert logs + lines == logs;
    } else {
      var next := Append(logs, lines[0]);
      assert next == Recent(logs + [lines[0]], MaxLines);
      AppendAllIsWindow(next, lines[1..]);
      assert AppendAll(logs, lines) == AppendAll(next, lines[1..]);
      RecentOfRecent(logs + [lines[0]], lines[1..], MaxLines);
      HeadTail(logs, lines);
    }
  }

  /** A buffer emptied (at start-up or by the clear button) then fed `lines` holds their last `MaxLines`. */
  lemma WindowAfterClear(lines: seq<string>)
    ensures AppendAll([], lines) == Recent(lines, MaxLines)
  {
    AppendAllIsWindow([], lines);
    assert [] + lines == lines;
  }
}
