/**
 * Concrete sessions taken from the test suites, proved from the method
 * contracts of the array and the mirror and the stream functions.
 */
module Scenarios {
  import opened Options
  import opened Operations
  import opened OperationLog
  import opened ReactiveArrays

  /**
   * Starting from [1, 2, 3, 4]: `append(5)`, `removeAtIndex(1)` and
   * `replaceAll([9, 9])`, with the operations broadcast and the counts
   * `observableCount` delivers to a subscriber that subscribed first.
   */
  method ArraySession() returns (snapshot: seq<int>, removed: int, ghost log: seq<Operation<int>>, ghost counts: seq<int>)
    ensures removed == 2
    ensures snapshot == [9, 9]
    ensures log == [Operation.Append(5), Operation.RemoveElement(1), Operation.ReplaceAll([9, 9])]
    ensures counts == [4, 5, 4, 2]
  {
    var a := new ReactiveArray([1, 2, 3, 4]);
    a.Append(5);
    assert a.contents == [1, 2, 3, 4, 5];
    removed := a.RemoveAtIndex(1);
    assert a.contents == [1, 3, 4, 5];
    a.ReplaceAll([9, 9]);
    snapshot := a.contents;
    log := a.emitted;
    counts := ObservableCount([1, 2, 3, 4], log);
    assert counts == [4] + CountScan(4, log);
    assert CountScan(4, log) == [5] + CountScan(5, log[1..]);
    assert CountScan(5, log[1..]) == [4] + CountScan(4, log[2..]);
    assert CountScan(4, log[2..]) == [2] + CountScan(2, log[3..]);
  }

  /** `removeAtIndex(1)` on [1, 2, 3, 4] returns 2, leaves [1, 3, 4] and emits `RemoveElement(1)`. */
  method RemoveSecond() returns (removed: int, remaining: seq<int>, ghost log: seq<Operation<int>>)
    ensures removed == 2 && remaining == [1, 3, 4]
    ensures log == [Operation.RemoveElement(1)]
  {
    var a := new ReactiveArray([1, 2, 3, 4]);
    removed := a.RemoveAtIndex(1);
    remaining := a.contents;
    log := a.emitted;
  }

  /** `ReactiveArray<Int>()` is empty: no `first` or `last`, and `startIndex` and `endIndex` are both 0. */
  method EmptyArrayAccessors() returns (isEmpty: bool, first: Option<int>, last: Option<int>, startIndex: nat, endIndex: nat)
    ensures isEmpty && first.None? && last.None?
    ensures startIndex == 0 && endIndex == 0
  {
    var a := new ReactiveArray<int>();
    isEmpty := a.IsEmpty();
    first := a.First();
    last := a.Last();
    startIndex := a.StartIndex();
    endIndex := a.EndIndex();
  }

  /** The transform `{ $0 + 10 }` of the mirror tests. */
  function AddTen(x: int): int
  {
    x + 10
  }

  lemma AddTenToEach(s: seq<int>, r: seq<int>)
    requires |s| == |r| && forall i | 0 <= i < |s| :: r[i] == s[i] + 10
    ensures MapSeq(AddTen, s) == r
  {
  }

  /** `mirror { $0 + 10 }` of [1, 2, 3, 4] starts as [11, 12, 13, 14]. */
  method MirrorStartsMapped() returns (initialMirror: seq<int>)
    ensures initialMirror == [11, 12, 13, 14]
  {
    var source := new ReactiveArray([1, 2, 3, 4]);
    var m := new Mirror(source, AddTen);
    initialMirror := m.target.contents;
    AddTenToEach([1, 2, 3, 4], [11, 12, 13, 14]);
  }

  /** One mutation `op` on a fresh source [1, 2, 3, 4] that has a mirror `{ $0 + 10 }`. */
  method ForwardOnFreshMirror(op: Operation<int>) returns (mirrored: seq<int>, ghost forwarded: seq<Operation<int>>)
    requires !op.Initiate? && op.IsValidFor(4)
    ensures mirrored == MapSeq(AddTen, Apply([1, 2, 3, 4], op))
    ensures forwarded == [op.Map(AddTen)]
  {
    var source := new ReactiveArray([1, 2, 3, 4]);
    var m := new Mirror(source, AddTen);
    m.Perform(op);
    mirrored := m.target.contents;
    forwarded := m.target.emitted;
  }

  /**
   * Each of a subscript set, an append and a removal on the source reaches
   * `mirror { $0 + 10 }` as the mapped operation: `Replace(15, 1)`,
   * `Append(15)` and `RemoveElement(1)`.
   */
  method MirrorForwardsMapped() returns (replaced: seq<int>, appended: seq<int>, removed: seq<int>, ghost forwarded: seq<Operation<int>>)
    ensures replaced == [11, 15, 13, 14]
    ensures appended == [11, 12, 13, 14, 15]
    ensures removed == [11, 13, 14]
    ensures forwarded == [Operation.Replace(15, 1), Operation.Append(15), Operation.RemoveElement(1)]
  {
    ghost var f1, f2, f3;
    replaced, f1 := ForwardOnFreshMirror(Operation.Replace(5, 1));
    AddTenToEach([1, 5, 3, 4], [11, 15, 13, 14]);
    appended, f2 := ForwardOnFreshMirror(Operation.Append(5));
    AddTenToEach([1, 2, 3, 4, 5], [11, 12, 13, 14, 15]);
    removed, f3 := ForwardOnFreshMirror(Operation.RemoveElement(1));
    AddTenToEach([1, 3, 4], [11, 13, 14]);
    forwarded := f1 + f2 + f3;
  }

  /** `ReplaceAll([1, 2, 3, 4]).map { $0 * 2 }` is `ReplaceAll([2, 4, 6, 8])`. */
  lemma DoublingReplaceAll()
    ensures Operation.ReplaceAll([1, 2, 3, 4]).Map(x => x * 2) == Operation.ReplaceAll([2, 4, 6, 8])
  {
  }

  /** `removeAll` seen through `observableCount`: the counts are [count before, 0], whatever the flag. */
  lemma RemoveAllCounts(snapshot: seq<int>, keepCapacity: bool)
    ensures ObservableCount(snapshot, [Operation.RemoveAll(keepCapacity)]) == [|snapshot|, 0]
  {
    var live := [Operation.RemoveAll(keepCapacity)];
    var p := Producer(snapshot, live);
    assert CountScan(0, p) == [|snapshot|] + CountScan(|snapshot|, live);
    assert live[1..] == [];
    assert CountScan(|snapshot|, live) == [0] + CountScan(0, live[1..]);
  }
}
