/**
 * A document template with slots: the fixed texts of a generated document
 * (an f-string or a format string) alternate with the values put into it.
 * The fixed texts are `pieces`, the values `slots`; there is one piece more
 * than there are slots, so the document starts and ends with fixed text.
 */
module Template {
  import opened Strings

  /** `pieces[0] + slots[0] + pieces[1] + … + slots[n-1] + pieces[n]` */
  function Fill(pieces: seq<string>, slots: seq<string>): string
    requires |pieces| == |slots| + 1
    decreases |slots|
  {
    if |slots| == 0 then pieces[0] else pieces[0] + slots[0] + Fill(pieces[1..], slots[1..])
  }

  /** The document in front of slot `i`: the first `i` slots with the pieces around them. */
  function Before(pieces: seq<string>, slots: seq<string>, i: nat): string
    requires |pieces| == |slots| + 1 && i < |slots|
    decreases i
  {
    if i == 0 then pieces[0] else pieces[0] + slots[0] + Before(pieces[1..], slots[1..], i - 1)
  }

  /** Where slot `i` starts in the document. */
  function Offset(pieces: seq<string>, slots: seq<string>, i: nat): nat
    requires |pieces| == |slots| + 1 && i < |slots|
  {
    |Before(pieces, slots, i)|
  }

  /** The document split at slot `i`: what comes before it, the slot, then the rest of the template filled. */
  lemma {:induction false} FillAt(pieces: seq<string>, slots: seq<string>, i: nat)
    requires |pieces| == |slots| + 1 && i < |slots|
    ensures Fill(pieces, slots) == Before(pieces, slots, i) + slots[i] + Fill(pieces[i + 1..], slots[i + 1..])
    decreases i
  {
    if i > 0 {
      FillAt(pieces[1..], slots[1..], i - 1);
      assert pieces[1..][i..] == pieces[i + 1..];
      assert slots[1..][i..] == slots[i + 1..];
    }
  }

  /** What comes before slot `i` depends on the pieces and on the slots before `i` only. */
  lemma {:induction false} BeforeDependsOnEarlier(pieces: seq<string>, slots: seq<string>, slots': seq<string>, i: nat)
    requires |pieces| == |slots| + 1 && |slots'| == |slots| && i < |slots|
    requires slots[..i] == slots'[..i]
    ensures Before(pieces, slots, i) == Before(pieces, slots', i)
    decreases i
  {
    if i > 0 {
      assert slots[0] == slots[..i][0] == slots'[..i][0] == slots'[0];
      assert slots[1..][..i - 1] == slots[..i][1..] == slots'[..i][1..] == slots'[1..][..i - 1];
      BeforeDependsOnEarlier(pieces[1..], slots[1..], slots'[1..], i - 1);
    }
  }

  /** The text in front of the next slot: this one's, the slot, and the piece after it. */
  lemma {:induction false} BeforeNext(pieces: seq<string>, slots: seq<string>, i: nat)
    requires |pieces| == |slots| + 1 && i + 1 < |slots|
    ensures Before(pieces, slots, i + 1) == Before(pieces, slots, i) + slots[i] + pieces[i + 1]
    decreases i
  {
    if i > 0 {
      BeforeNext(pieces[1..], slots[1..], i - 1);
    }
  }

  /** Slots come in order: the next one starts after this one and the piece between them. */
  lemma NextOffset(pieces: seq<string>, slots: seq<string>, i: nat)
    requires |pieces| == |slots| + 1 && i + 1 < |slots|
    ensures Offset(pieces, slots, i + 1) == Offset(pieces, slots, i) + |slots[i]| + |pieces[i + 1]|
  {
    BeforeNext(pieces, slots, i);
  }

  /** Slot `i` stands in the document at its offset. */
  lemma SlotAt(pieces: seq<string>, slots: seq<string>, i: nat)
    requires |pieces| == |slots| + 1 && i < |slots|
    ensures OccursAt(Fill(pieces, slots), slots[i], Offset(pieces, slots, i))
  {
    FillAt(pieces, slots, i);
    var d := Fill(pieces, slots);
    var b := Before(pieces, slots, i);
    assert d == b + slots[i] + Fill(pieces[i + 1..], slots[i + 1..]);
    assert d[|b|..|b| + |slots[i]|] == slots[i];
  }

  /** The document starts with the first piece and, when there is a slot, the first slot after it. */
  lemma FirstSlot(pieces: seq<string>, slots: seq<string>)
    requires |pieces| == |slots| + 1 && |slots| > 0
    ensures StartsWith(Fill(pieces, slots), pieces[0] + slots[0])
  {
    var d := Fill(pieces, slots);
    assert d == (pieces[0] + slots[0]) + Fill(pieces[1..], slots[1..]);
    assert d[..|pieces[0] + slots[0]|] == pieces[0] + slots[0];
  }

  /** The document ends with the last slot and the last piece. */
  lemma {:induction false} LastSlot(pieces: seq<string>, slots: seq<string>)
    requires |pieces| == |slots| + 1 && |slots| > 0
    ensures EndsWith(Fill(pieces, slots), slots[|slots| - 1] + pieces[|slots|])
    decreases |slots|
  {
    var d := Fill(pieces, slots);
    var t := slots[|slots| - 1] + pieces[|slots|];
    if |slots| == 1 {
      assert Fill(pieces[1..], slots[1..]) == pieces[1];
      assert d == pieces[0] + t;
    } else {
      LastSlot(pieces[1..], slots[1..]);
      var rest := Fill(pieces[1..], slots[1..]);
      assert rest[|rest| - |t|..] == t;
      assert d == (pieces[0] + slots[0]) + rest;
      assert d[|d| - |t|..] == rest[|rest| - |t|..];
    }
  }

  /**
   * Two documents agree except in one place: before `k` they are the same,
   * and so is what follows a region of length `n` in `d` and `n'` in `d'`.
   */
  predicate SameAround(d: string, d': string, k: nat, n: nat, n': nat) {
    k + n <= |d| && k + n' <= |d'| && d[..k] == d'[..k] && d[k + n..] == d'[k + n'..]
  }

  /**
   * Changing slot `i` alone changes the document only there: the text in
   * front of it and the text after it stay as they were.
   */
  lemma OnlySlotChanges(pieces: seq<string>, slots: seq<string>, i: nat, v: string)
    requires |pieces| == |slots| + 1 && i < |slots|
    ensures var d, d' := Fill(pieces, slots), Fill(pieces, slots[i := v]);
      var k := Offset(pieces, slots, i);
      k == Offset(pieces, slots[i := v], i) && SameAround(d, d', k, |slots[i]|, |v|)
  {
    var slots' := slots[i := v];
    assert slots[..i] == slots'[..i];
    assert slots[i + 1..] == slots'[i + 1..];
    BeforeDependsOnEarlier(pieces, slots, slots', i);
    FillAt(pieces, slots, i);
    FillAt(pieces, slots', i);
    var b := Before(pieces, slots, i);
    var rest := Fill(pieces[i + 1..], slots[i + 1..]);
    SplitThree(Fill(pieces, slots), b, slots[i], rest);
    SplitThree(Fill(pieces, slots'), b, v, rest);
  }

  /** Changing the last slot: the document up to it is the same, and after it comes only the last piece. */
  lemma LastSlotChanges(pieces: seq<string>, slots: seq<string>, v: string)
    requires |pieces| == |slots| + 1 && |slots| > 0
    ensures var n := |slots| - 1;
      var d, d' := Fill(pieces, slots), Fill(pieces, slots[n := v]);
      var k := Offset(pieces, slots, n);
      k <= |d| && k <= |d'| && d[..k] == d'[..k] && d[k..] == slots[n] + pieces[n + 1] && d'[k..] == v + pieces[n + 1]
  {
    var n := |slots| - 1;
    var slots' := slots[n := v];
    assert slots[..n] == slots'[..n];
    BeforeDependsOnEarlier(pieces, slots, slots', n);
    FillAt(pieces, slots, n);
    FillAt(pieces, slots', n);
    assert Fill(pieces[n + 1..], slots[n + 1..]) == pieces[n + 1];
    assert Fill(pieces[n + 1..], slots'[n + 1..]) == pieces[n + 1];
    var b := Before(pieces, slots, n);
    SplitTwo(Fill(pieces, slots), b, slots[n] + pieces[n + 1]);
    SplitTwo(Fill(pieces, slots'), b, v + pieces[n + 1]);
  }
}
