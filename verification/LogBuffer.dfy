/** The agent's ring of log lines, with a cursor for the lines already reported. */
module LogBuffer {

  import opened Ring

  // ---------------------------------------------------------------- specification

  /** How many of the lines written so far are still there. */
  function Kept(h: seq<string>, size: nat): nat { Min(|h|, size) }

  function Recent(h: seq<string>, size: nat, n: nat): seq<string> {
    h[|h| - Min(n, Kept(h, size))..]
  }

  /** The oldest line that is neither reported nor overwritten. */
  function PeekStart(h: seq<string>, size: nat, peekPos: nat): nat {
    var oldest := |h| - Kept(h, size);
    if peekPos < oldest then oldest else peekPos
  }

  function Peek(h: seq<string>, size: nat, peekPos: nat, n: nat): seq<string> {
    var start := PeekStart(h, size, peekPos);
    if start >= |h| then [] else h[start..start + Min(n, |h| - start)]
  }

  // ---------------------------------------------------------------- the buffer

  class Buffer {
    var buf: array<string>
    var pos: nat
    const size: nat
    var peekPos: nat
    /** Every line written since the last drain. */
    ghost var history: seq<string>

    ghost predicate Valid()
      reads this, buf
    {
      size > 0 && buf.Length == size && pos == |history| && Holds(buf[..], history, Kept(history, size))
    }

    constructor (size: nat)
      requires size > 0
      ensures Valid() && history == [] && peekPos == 0 && this.size == size && fresh(buf)
    {
      buf := new string[size](_ => "");
      this.size := size;
      pos, peekPos, history := 0, 0, [];
    }

    method WriteRaw(msg: string)
      requires Valid()
      modifies this, buf
      ensures Valid() && buf == old(buf) && peekPos == old(peekPos)
      ensures history == old(history) + [msg]
    {
      WriteHolds(buf[..], history, Kept(history, size), msg);
      ghost var before := buf[..];
      buf[pos % size] := msg;
      assert buf[..] == before[pos % size := msg];
      pos := pos + 1;
      history := history + [msg];
    }

    /** Write stamps the line. */
    method Write(stamp: string, msg: string)
      requires Valid()
      modifies this, buf
      ensures Valid() && buf == old(buf) && peekPos == old(peekPos)
      ensures history == old(history) + [stamp + " " + msg]
    {
      WriteRaw(stamp + " " + msg);
    }

    method Len() returns (total: nat)
      requires Valid()
      ensures total == Kept(history, size)
    {
      total := pos;
      if total > size { total := size; }
    }

    /** The lines at positions from..to, all of them still present. */
    method Copy(from: nat, to: nat) returns (result: seq<string>)
      requires Valid() && |history| - Kept(history, size) <= from <= to <= |history|
      ensures result == history[from..to]
    {
      result := [];
      var i := from;
      while i < to
        invariant from <= i <= to
        invariant result == history[from..i]
      {
        assert buf[..][i % size] == history[i];
        result := result + [buf[i % size]];
        i := i + 1;
      }
    }

    /** Drain returns what is left and empties the buffer; the cursor stays where it was. */
    method Drain() returns (result: seq<string>)
      requires Valid()
      modifies this
      ensures Valid() && fresh(buf) && peekPos == old(peekPos)
      ensures result == Recent(old(history), size, size) && history == []
    {
      var total := Len();
      result := Copy(pos - total, pos);
      buf := new string[size](_ => "");
      pos := 0;
      history := [];
    }

    method Clear()
      requires Valid()
      modifies this
      ensures Valid() && fresh(buf) && peekPos == old(peekPos) && history == []
    {
      buf := new string[size](_ => "");
      pos := 0;
      history := [];
    }

    method RecentLines(n: nat) returns (result: seq<string>)
      requires Valid()
      ensures result == Recent(history, size, n)
    {
      var total := Len();
      var count := n;
      if count > total { count := total; }
      result := Copy(pos - count, pos);
    }

    method PeekLines(n: nat) returns (result: seq<string>)
      requires Valid()
      ensures result == Peek(history, size, peekPos, n)
    {
      var total := Len();
      var oldest := pos - total;
      var start := peekPos;
      if start < oldest { start := oldest; }
      if start >= pos { return []; }
      var count := pos - start;
      if count > n { count := n; }
      result := Copy(start, start + count);
    }

    method Commit()
      requires Valid()
      modifies this`peekPos
      ensures Valid() && peekPos == |history|
    {
      peekPos := pos;
    }
  }

  /** The recent lines are the newest ones, in the order of writing: as many as asked for, as far as they were
      written and not overwritten. */
  lemma RecentAreNewest(h: seq<string>, size: nat, n: nat)
    ensures var r := Recent(h, size, n);
            (|r| == n || (|r| < n && (|r| == |h| || |r| == size))) && |r| <= size && |r| <= |h|
            && r == h[|h| - |r|..]
  {}

  /** What is left of a sequence has the same recent lines as the sequence. */
  lemma RecentOfRest(h: seq<string>, size: nat, n: nat)
    requires size > 0
    ensures Recent(Recent(h, size, size), size, n) == Recent(h, size, n)
  {}

  /** A failed heartbeat puts the drained lines back: the buffer then holds what it held before. */
  method SendFailed(lb: Buffer) returns (drained: seq<string>)
    requires lb.Valid()
    modifies lb, lb.buf
    ensures lb.Valid() && lb.history == drained == Recent(old(lb.history), lb.size, lb.size)
    ensures forall n: nat :: Recent(lb.history, lb.size, n) == Recent(old(lb.history), lb.size, n)
  {
    drained := lb.Drain();
    var i := 0;
    while i < |drained|
      invariant 0 <= i <= |drained|
      invariant lb.Valid() && fresh(lb.buf) && lb.history == drained[..i]
    {
      lb.WriteRaw(drained[i]);
      i := i + 1;
    }
    assert drained[..i] == drained;
    forall n: nat ensures Recent(lb.history, lb.size, n) == Recent(old(lb.history), lb.size, n) {
      RecentOfRest(old(lb.history), lb.size, n);
    }
  }

  // ---------------------------------------------------------------- what the cursor guarantees

  /** Until a commit, a peek returns the same lines again, in the same place, for as long as the first
      of them has not been overwritten. */
  lemma PeekRepeats(h: seq<string>, more: seq<string>, size: nat, peekPos: nat, n: nat)
    requires size > 0 && |h + more| - size <= PeekStart(h, size, peekPos)
    ensures Peek(h, size, peekPos, n) <= Peek(h + more, size, peekPos, n)
    ensures |Peek(h, size, peekPos, n)| == n ==> Peek(h + more, size, peekPos, n) == Peek(h, size, peekPos, n)
  {}

  /** Nothing written before a commit is ever returned by a later peek: it returns a stretch of what
      was written since, the oldest surviving lines of it. */
  lemma CommittedLinesNeverReturn(h: seq<string>, more: seq<string>, size: nat, n: nat)
    requires size > 0
    ensures var first := if |more| <= size then 0 else |more| - size;
            Peek(h + more, size, |h|, n) == more[first..first + Min(n, |more| - first)]
  {}

  /** One peek shows every unreported line exactly when there are at most n and none was overwritten;
      a commit after any other peek drops the rest unreported. */
  lemma PeekIsComplete(h: seq<string>, size: nat, peekPos: nat, n: nat)
    requires size > 0 && peekPos <= |h|
    ensures Peek(h, size, peekPos, n) == h[peekPos..] <==> |h| - peekPos <= n && |h| - peekPos <= size
  {}

  /** A drain leaves the cursor behind: a peek then shows something exactly when more lines were written
      since the drain than the cursor had counted before it. */
  lemma DrainHidesLines(since: seq<string>, size: nat, peekPos: nat, n: nat)
    requires size > 0 && n > 0
    ensures Peek(since, size, peekPos, n) != [] <==> |since| > peekPos
  {}
}
