/**
 * The reactive array: a mutable sequence that emits one `Operation` per
 * mutation, and the mirror that follows a transform of a source array.
 *
 * Subscribers are represented by the ghost log `emitted` of everything the
 * array has broadcast since it was created; what a live or replay-mode
 * subscriber and `observableCount` receive is a pure function of that log
 * (module OperationLog).
 */
module ReactiveArrays {
  import opened Options
  import opened Operations
  import opened OperationLog

  class ReactiveArray<T> {
    /** The backing storage, the Swift `array` property. */
    var contents: seq<T>
    /** The elements the array was created with. */
    ghost var initial: seq<T>
    /** Every operation broadcast so far, in emission order. */
    ghost var emitted: seq<Operation<T>>

    /**
     * Storage never changes without the matching operation: replaying the
     * broadcast log on the initial elements yields the current contents.
     */
    ghost predicate Valid()
      reads this
    {
      ApplyAll(initial, emitted) == Some(contents)
    }

    /** `ReactiveArray(elements:)`; the default is the empty array. */
    constructor (elements: seq<T> := [])
      ensures Valid()
      ensures contents == elements && initial == elements && emitted == []
    {
      contents := elements;
      initial := elements;
      emitted := [];
    }

    /** Broadcasts `op` after storage has been changed to `next`. */
    method Emit(op: Operation<T>, next: seq<T>)
      requires Valid()
      requires op.IsValidFor(|contents|) && next == Apply(contents, op)
      modifies this
      ensures initial == old(initial) && emitted == old(emitted) + [op]
      ensures contents == next && Valid()
    {
      ApplyAllSnoc(initial, emitted, op);
      contents := next;
      emitted := emitted + [op];
    }

    method Append(v: T)
      requires Valid()
      modifies this
      ensures Valid() && initial == old(initial)
      ensures contents == old(contents) + [v]
      ensures emitted == old(emitted) + [Operation.Append(v)]
    {
      Emit(Operation.Append(v), contents + [v]);
    }

    method AppendContentsOf(values: seq<T>)
      requires Valid()
      modifies this
      ensures Valid() && initial == old(initial)
      ensures contents == old(contents) + values
      ensures contents[..|old(contents)|] == old(contents) && contents[|old(contents)|..] == values
      ensures emitted == old(emitted) + [Operation.AppendContentsOf(values)]
    {
      Emit(Operation.AppendContentsOf(values), contents + values);
    }

    method Insert(v: T, atIndex: nat)
      requires Valid()
      requires atIndex <= |contents|
      modifies this
      ensures Valid() && initial == old(initial)
      ensures contents == old(contents)[..atIndex] + [v] + old(contents)[atIndex..]
      ensures |contents| == |old(contents)| + 1 && contents[atIndex] == v
      ensures emitted == old(emitted) + [Operation.Insert(v, atIndex)]
    {
      Emit(Operation.Insert(v, atIndex), contents[..atIndex] + [v] + contents[atIndex..]);
    }

    /** Stores `v` at `atIndex` and returns the element it replaced. */
    method Replace(v: T, atIndex: nat) returns (previous: T)
      requires Valid()
      requires atIndex < |contents|
      modifies this
      ensures Valid() && initial == old(initial)
      ensures previous == old(contents)[atIndex]
      ensures contents == old(contents)[atIndex := v]
      ensures emitted == old(emitted) + [Operation.Replace(v, atIndex)]
    {
      previous := contents[atIndex];
      Emit(Operation.Replace(v, atIndex), contents[atIndex := v]);
    }

    /** Subscript set `a[i] = v`: the same as `Replace` without its result. */
    method SetAt(atIndex: nat, v: T)
      requires Valid()
      requires atIndex < |contents|
      modifies this
      ensures Valid() && initial == old(initial)
      ensures contents == old(contents)[atIndex := v]
      ensures emitted == old(emitted) + [Operation.Replace(v, atIndex)]
    {
      var _ := Replace(v, atIndex);
    }

    /** Removes the element at `atIndex` and returns it. */
    method RemoveAtIndex(atIndex: nat) returns (removed: T)
      requires Valid()
      requires atIndex < |contents|
      modifies this
      ensures Valid() && initial == old(initial)
      ensures removed == old(contents)[atIndex]
      ensures contents == old(contents)[..atIndex] + old(contents)[atIndex + 1..]
      ensures |contents| == |old(contents)| - 1
      ensures emitted == old(emitted) + [Operation.RemoveElement(atIndex)]
    {
      removed := contents[atIndex];
      Emit(Operation.RemoveElement(atIndex), contents[..atIndex] + contents[atIndex + 1..]);
    }

    method ReplaceAll(values: seq<T>)
      requires Valid()
      modifies this
      ensures Valid() && initial == old(initial)
      ensures contents == values
      ensures emitted == old(emitted) + [Operation.ReplaceAll(values)]
    {
      Emit(Operation.ReplaceAll(values), values);
    }

    /** Empties the array; `keepCapacity` only travels with the operation. */
    method RemoveAll(keepCapacity: bool)
      requires Valid()
      modifies this
      ensures Valid() && initial == old(initial)
      ensures contents == []
      ensures emitted == old(emitted) + [Operation.RemoveAll(keepCapacity)]
    {
      Emit(Operation.RemoveAll(keepCapacity), []);
    }

    /**
     * Applies an operation received from elsewhere with the mutator of its
     * variant and re-broadcasts that same operation; the mirror forwards
     * the source's mapped operations through it.  `Initiate` only opens a
     * replay subscription and is never broadcast live, so it is excluded.
     */
    method ApplyOperation(op: Operation<T>)
      requires Valid()
      requires !op.Initiate? && op.IsValidFor(|contents|)
      modifies this
      ensures Valid() && initial == old(initial)
      ensures contents == Apply(old(contents), op)
      ensures emitted == old(emitted) + [op]
    {
      match op
      case Append(v) => Append(v);
      case AppendContentsOf(xs) => AppendContentsOf(xs);
      case Insert(v, i) => Insert(v, i);
      case Replace(v, i) => SetAt(i, v);
      case RemoveElement(i) => var _ := RemoveAtIndex(i);
      case ReplaceAll(xs) => ReplaceAll(xs);
      case RemoveAll(keep) => RemoveAll(keep);
    }

    // Read-only accessors: none of them changes the contents or emits.

    function Count(): (r: nat)
      reads this
      ensures r == |contents|
    {
      |contents|
    }

    /**
     * `count` is the last value `observableCount` has delivered to a
     * subscriber that subscribed when the array was created.
     */
    lemma CountIsLastObservedCount()
      requires Valid()
      ensures Count() == ObservableCount(initial, emitted)[|emitted|]
    {
      ObservableCountTracksLength(initial, emitted);
    }

    function IsEmpty(): (r: bool)
      reads this
      ensures r <==> Count() == 0
    {
      |contents| == 0
    }

    /** Subscript get `a[i]`. */
    function At(i: nat): (r: T)
      reads this
      requires i < Count()
      ensures r == contents[i]
    {
      contents[i]
    }

    function StartIndex(): (r: nat)
      reads this
      ensures r == 0
    {
      0
    }

    /** One past the last valid index. */
    function EndIndex(): (r: nat)
      reads this
      ensures r == StartIndex() + Count()
    {
      |contents|
    }

    function First(): (r: Option<T>)
      reads this
      ensures r.None? <==> IsEmpty()
      ensures r.Some? ==> r.value == At(StartIndex())
    {
      if |contents| == 0 then None else Some(contents[0])
    }

    function Last(): (r: Option<T>)
      reads this
      ensures r.None? <==> IsEmpty()
      ensures r.Some? ==> r.value == At(EndIndex() - 1)
    {
      if |contents| == 0 then None else Some(contents[|contents| - 1])
    }
  }

  /**
   * `source.mirror(transform)`: a target array of the transformed elements
   * that holds one subscription to its source.  Every operation the source
   * emits reaches the target as `op.map(transform)`, is applied there and is
   * re-broadcast by the target.  The source has no reference to the mirror.
   */
  class Mirror<T, U> {
    const source: ReactiveArray<T>
    const target: ReactiveArray<U>
    const transform: T -> U
    /** The length of the source's log when the mirror subscribed. */
    ghost const linkedAt: nat

    /**
     * The target holds the transformed source contents, and its own log
     * is the transformed source log since the mirror subscribed.
     */
    ghost predicate Valid()
      reads this, source, target
    {
      && source as object != target as object
      && source.Valid() && target.Valid()
      && linkedAt <= |source.emitted|
      && target.contents == MapSeq(transform, source.contents)
      && target.emitted == MapOps(transform, source.emitted[linkedAt..])
    }

    constructor (source: ReactiveArray<T>, transform: T -> U)
      requires source.Valid()
      ensures Valid()
      ensures this.source == source && this.transform == transform
      ensures fresh(target) && target.emitted == []
      ensures target.contents == MapSeq(transform, source.contents)
    {
      this.source := source;
      this.transform := transform;
      this.linkedAt := |source.emitted|;
      this.target := new ReactiveArray(MapSeq(transform, source.contents));
    }

    /**
     * A mutation of the source that emits `op`, delivered synchronously to
     * the mirror's subscription, which applies and re-broadcasts
     * `op.map(transform)` on the target.
     */
    method Perform(op: Operation<T>)
      requires Valid()
      requires !op.Initiate? && op.IsValidFor(|source.contents|)
      modifies source, target
      ensures Valid()
      ensures source.initial == old(source.initial) && target.initial == old(target.initial)
      ensures source.contents == Apply(old(source.contents), op)
      ensures source.emitted == old(source.emitted) + [op]
      ensures target.emitted == old(target.emitted) + [op.Map(transform)]
      ensures target.contents == MapSeq(transform, source.contents)
    {
      ghost var before := source.contents;
      ghost var log := source.emitted;
      source.ApplyOperation(op);
      ApplyMapCommutes(transform, before, op);
      target.ApplyOperation(op.Map(transform));
      assert (log + [op])[linkedAt..] == log[linkedAt..] + [op];
      MapOpsSnoc(transform, log[linkedAt..], op);
    }
  }
}
