/** Concrete scenarios, proved rather than run, that show the counter going
    stale after PopFront and EraseAfter as written, each beside the same
    scenario with the corrected member, which decrements the counter. */
module Findings {
  import opened LinkedList

  /** On the one-element list {7}, PopFront as written leaves a list whose
      begin() is its end() while GetSize() still answers 1, IsEmpty() answers
      false, and Clear() then leaves the counter at 1 instead of 0. */
  method PopFrontLeavesCounterStale() returns (size: nat, empty: bool, atEnd: bool, cleared: nat)
    ensures size == 1 && !empty && atEnd
    ensures cleared == 1
  {
    var l := new SingleLinkedList<int>.FromValues([7]);
    l.PopFront();
    size := l.GetSize();
    empty := l.IsEmpty();
    var b := l.Begin();
    var e := l.End();
    atEnd := b.Equals(e);
    l.Clear();
    cleared := l.GetSize();
  }

  /** The same scenario with the decrement: the counter reads 0, the list is
      empty, and Clear() keeps the counter at 0. */
  method PopFrontCountedKeepsCounterExact() returns (size: nat, empty: bool, atEnd: bool, cleared: nat)
    ensures size == 0 && empty && atEnd
    ensures cleared == 0
  {
    var l := new SingleLinkedList<int>.FromValues([7]);
    l.PopFrontCounted();
    size := l.GetSize();
    empty := l.IsEmpty();
    var b := l.Begin();
    var e := l.End();
    atEnd := b.Equals(e);
    l.Clear();
    cleared := l.GetSize();
  }

  /** On {1, 2}, EraseAfter(before_begin()) as written returns an iterator at
      the one remaining element, 2, whose successor is end(), while GetSize()
      still answers 2. */
  method EraseAfterLeavesCounterStale() returns (size: nat, first: int, lastIsEnd: bool)
    ensures size == 2 && first == 2 && lastIsEnd
  {
    var l := new SingleLinkedList<int>.FromValues([1, 2]);
    var bb := l.BeforeBegin();
    var it := l.EraseAfter(bb, -1);
    size := l.GetSize();
    l.ValueAtPosition(it, 0);
    first := it.Value();
    l.AdvancePosition(0);
    it.Next();
    var e := l.End();
    lastIsEnd := it.Equals(e);
  }

  /** The same scenario with the decrement: the counter reads 1. */
  method EraseAfterCountedKeepsCounterExact() returns (size: nat, first: int, lastIsEnd: bool)
    ensures size == 1 && first == 2 && lastIsEnd
  {
    var l := new SingleLinkedList<int>.FromValues([1, 2]);
    var bb := l.BeforeBegin();
    var it := l.EraseAfterCounted(bb, -1);
    size := l.GetSize();
    l.ValueAtPosition(it, 0);
    first := it.Value();
    l.AdvancePosition(0);
    it.Next();
    var e := l.End();
    lastIsEnd := it.Equals(e);
  }
}
