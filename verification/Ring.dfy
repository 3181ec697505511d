/** Positions in a ring: entry i of an unbounded sequence lives in slot i % size. */
module Ring {

  /** Two entries less than a lap apart never share a slot. */
  lemma SlotsDiffer(i: nat, j: nat, size: nat)
    requires size > 0 && i < j < i + size
    ensures i % size != j % size
  {
    var k := j / size - i / size;
    assert j - i == size * k + (j % size - i % size);
  }

  /** The ring holds the last `count` entries of s. */
  ghost predicate Holds<T>(slots: seq<T>, s: seq<T>, count: nat) {
    |slots| > 0 && count <= |slots| && count <= |s|
    && forall i {:trigger s[i]} :: |s| - count <= i < |s| ==> slots[i % |slots|] == s[i]
  }

  function Min(a: int, b: int): int { if a <= b then a else b }

  /** Writing the next entry into its slot: the ring still holds as many entries as fit. */
  lemma WriteHolds<T>(slots: seq<T>, s: seq<T>, count: nat, x: T)
    requires Holds(slots, s, count)
    ensures Holds(slots[|s| % |slots| := x], s + [x], Min(count + 1, |slots|))
  {
    var slots', s' := slots[|s| % |slots| := x], s + [x];
    var count' := Min(count + 1, |slots|);
    forall i | |s'| - count' <= i < |s'| ensures slots'[i % |slots|] == s'[i] {
      if i < |s| {
        SlotsDiffer(i, |s|, |slots|);
        assert slots[i % |slots|] == s[i];
      }
    }
  }
}
