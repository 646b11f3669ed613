/**
 * What an operation means for the contents of an array, and the views
 * that subscribers derive from the stream of operations: replay of a
 * snapshot followed by live operations, the running element count, and
 * the mapped stream a mirror receives.
 */
module OperationLog {
  import opened Options
  import opened Operations

  /** The contents after `op` is applied to `s`, as the array applies it to its own storage. */
  function Apply<T>(s: seq<T>, op: Operation<T>): seq<T>
    requires op.IsValidFor(|s|)
  {
    match op
    case Initiate(xs) => xs
    case Append(v) => s + [v]
    case AppendContentsOf(xs) => s + xs
    case Insert(v, i) => s[..i] + [v] + s[i..]
    case Replace(v, i) => s[i := v]
    case RemoveElement(i) => s[..i] + s[i + 1..]
    case ReplaceAll(xs) => xs
    case RemoveAll(_) => []
  }

  /**
   * The contents after the operations `ops` are applied to `s` in order,
   * or `None` when one of them carries an index that is out of range for
   * the contents it meets.
   */
  function ApplyAll<T>(s: seq<T>, ops: seq<Operation<T>>): Option<seq<T>>
    decreases |ops|
  {
    if |ops| == 0 then Some(s)
    else if ops[0].IsValidFor(|s|) then ApplyAll(Apply(s, ops[0]), ops[1..])
    else None
  }

  /** Applying one more operation at the end of a log is one more `Apply`. */
  lemma {:induction false} ApplyAllSnoc<T>(s: seq<T>, ops: seq<Operation<T>>, op: Operation<T>)
    requires ApplyAll(s, ops).Some?
    requires op.IsValidFor(|ApplyAll(s, ops).value|)
    ensures ApplyAll(s, ops + [op]) == Some(Apply(ApplyAll(s, ops).value, op))
    decreases |ops|
  {
    if |ops| == 0 {
      assert ops + [op] == [op];
      assert [op][1..] == [];
    } else {
      assert (ops + [op])[1..] == ops[1..] + [op];
      ApplyAllSnoc(Apply(s, ops[0]), ops[1..], op);
    }
  }

  /** A log is applied by applying its first part and then its second part to the result. */
  lemma {:induction false} ApplyAllConcat<T>(s: seq<T>, a: seq<Operation<T>>, b: seq<Operation<T>>)
    ensures ApplyAll(s, a + b) ==
      match ApplyAll(s, a)
      case None => None
      case Some(t) => ApplyAll(t, b)
    decreases |a|
  {
    if |a| == 0 {
      assert a + b == b;
    } else {
      assert (a + b)[0] == a[0];
      assert (a + b)[1..] == a[1..] + b;
      if a[0].IsValidFor(|s|) {
        ApplyAllConcat(Apply(s, a[0]), a[1..], b);
      }
    }
  }

  // ---------------------------------------------------------------------
  // Live and replay subscriptions

  /**
   * The stream a replay-mode subscriber ("producer") receives when it
   * subscribes while the contents are `snapshot`: `Initiate(snapshot)`
   * first, then every operation emitted afterwards.
   */
  function Producer<T>(snapshot: seq<T>, live: seq<Operation<T>>): (r: seq<Operation<T>>)
    ensures |r| == |live| + 1 && r[0] == Initiate(snapshot) && r[1..] == live
  {
    [Initiate(snapshot)] + live
  }

  /**
   * A subscriber that subscribed at position `k` of the log, and rebuilds
   * the contents from what it receives, ends with the array's current
   * contents: from the snapshot at `k` when it subscribed live, and from
   * any starting contents at all when it subscribed in replay mode.
   */
  lemma {:induction false} SubscribersConverge<T>(initial: seq<T>, log: seq<Operation<T>>, k: nat, anyStart: seq<T>)
    requires ApplyAll(initial, log).Some?
    requires k <= |log|
    ensures ApplyAll(initial, log[..k]).Some?
    ensures ApplyAll(ApplyAll(initial, log[..k]).value, log[k..]) == ApplyAll(initial, log)
    ensures ApplyAll(anyStart, Producer(ApplyAll(initial, log[..k]).value, log[k..])) == ApplyAll(initial, log)
  {
    assert log == log[..k] + log[k..];
    ApplyAllConcat(initial, log[..k], log[k..]);
    var p := Producer(ApplyAll(initial, log[..k]).value, log[k..]);
    assert p[0].IsValidFor(|anyStart|);
  }

  /**
   * The older API replays a snapshot as one `Append` per stored element,
   * in order, instead of one `Initiate`.
   */
  function LegacyReplay<T>(snapshot: seq<T>): (r: seq<Operation<T>>)
    ensures |r| == |snapshot|
    ensures forall i :: 0 <= i < |r| ==> r[i] == Append(snapshot[i])
  {
    MapSeq(x => Append(x), snapshot)
  }

  /** The older producer: the per-element replay, then the live operations. */
  function LegacyProducer<T>(snapshot: seq<T>, live: seq<Operation<T>>): seq<Operation<T>>
  {
    LegacyReplay(snapshot) + live
  }

  /** Replaying `Append(x)` for every `x` of a snapshot appends the snapshot. */
  lemma {:induction false} LegacyReplayAppends<T>(s: seq<T>, snapshot: seq<T>)
    ensures ApplyAll(s, LegacyReplay(snapshot)) == Some(s + snapshot)
    decreases |snapshot|
  {
    var r := LegacyReplay(snapshot);
    if |snapshot| == 0 {
      assert s + snapshot == s;
    } else {
      assert r[1..] == LegacyReplay(snapshot[1..]);
      LegacyReplayAppends(s + [snapshot[0]], snapshot[1..]);
      assert s + [snapshot[0]] + snapshot[1..] == s + snapshot;
    }
  }

  /**
   * A subscriber to the older producer that starts from the empty array
   * rebuilds the snapshot and then follows the live operations; for an
   * empty snapshot it receives the live operations directly.
   */
  lemma LegacyProducerRebuilds<T>(snapshot: seq<T>, live: seq<Operation<T>>)
    ensures ApplyAll([], LegacyProducer(snapshot, live)) == ApplyAll(snapshot, live)
    ensures LegacyProducer([], live) == live
  {
    ApplyAllConcat([], LegacyReplay(snapshot), live);
    LegacyReplayAppends([], snapshot);
    assert [] + snapshot == snapshot;
    assert LegacyReplay<T>([]) == [];
  }

  // ---------------------------------------------------------------------
  // observableCount

  /** The reducer (old count, operation) -> new count behind `observableCount`. */
  function CountStep<T>(n: int, op: Operation<T>): int
  {
    match op
    case Initiate(xs) => |xs|
    case Append(_) => n + 1
    case AppendContentsOf(xs) => n + |xs|
    case Insert(_, _) => n + 1
    case Replace(_, _) => n
    case RemoveElement(_) => n - 1
    case ReplaceAll(xs) => |xs|
    case RemoveAll(_) => 0
  }

  /** For an operation valid against `s`, the reducer gives the length `Apply` produces. */
  lemma CountStepMatchesApply<T>(s: seq<T>, op: Operation<T>)
    requires op.IsValidFor(|s|)
    ensures CountStep(|s|, op) == |Apply(s, op)|
  {
  }

  /** The counts emitted while folding `ops` with `CountStep` from `n`: one per operation. */
  function CountScan<T>(n: int, ops: seq<Operation<T>>): (r: seq<int>)
    ensures |r| == |ops|
    decreases |ops|
  {
    if |ops| == 0 then [] else
      var m := CountStep(n, ops[0]);
      [m] + CountScan(m, ops[1..])
  }

  /**
   * The counts a subscriber to `observableCount` receives: the reducer
   * folded over the replay stream, so the `Initiate` of the snapshot gives
   * the first count.
   */
  function ObservableCount<T>(snapshot: seq<T>, live: seq<Operation<T>>): seq<int>
  {
    CountScan(0, Producer(snapshot, live))
  }

  /** The `k`-th count of the fold is the length after the first `k + 1` operations. */
  lemma {:induction false} CountScanTracksLength<T>(s: seq<T>, ops: seq<Operation<T>>, k: nat)
    requires ApplyAll(s, ops).Some?
    requires k < |ops|
    ensures ApplyAll(s, ops[..k + 1]).Some?
    ensures CountScan(|s|, ops)[k] == |ApplyAll(s, ops[..k + 1]).value|
    decreases k
  {
    var t := Apply(s, ops[0]);
    CountStepMatchesApply(s, ops[0]);
    assert ops[..k + 1][0] == ops[0];
    assert ops[..k + 1][1..] == ops[1..][..k];
    if k == 0 {
      assert ops[1..][..0] == [];
    } else {
      CountScanTracksLength(t, ops[1..], k - 1);
    }
  }

  /**
   * `observableCount` starts at the snapshot's length and, after each
   * live operation, equals the length of the contents at that point; in
   * particular its last value is the current length.
   */
  lemma ObservableCountTracksLength<T>(snapshot: seq<T>, live: seq<Operation<T>>)
    requires ApplyAll(snapshot, live).Some?
    ensures |ObservableCount(snapshot, live)| == |live| + 1
    ensures ObservableCount(snapshot, live)[0] == |snapshot|
    ensures forall k :: 0 < k <= |live| ==>
      ApplyAll(snapshot, live[..k]).Some? &&
      ObservableCount(snapshot, live)[k] == |ApplyAll(snapshot, live[..k]).value|
    ensures ObservableCount(snapshot, live)[|live|] == |ApplyAll(snapshot, live).value|
  {
    var c := ObservableCount(snapshot, live);
    assert c == [|snapshot|] + CountScan(|snapshot|, live);
    forall k | 0 < k <= |live|
      ensures ApplyAll(snapshot, live[..k]).Some?
      ensures c[k] == |ApplyAll(snapshot, live[..k]).value|
    {
      CountScanTracksLength(snapshot, live, k - 1);
    }
    assert live[..|live|] == live;
  }

  // ---------------------------------------------------------------------
  // mirror

  /** The operations a mirror with transform `f` emits for the source operations `ops`. */
  function MapOps<T, U>(f: T -> U, ops: seq<Operation<T>>): (r: seq<Operation<U>>)
    ensures |r| == |ops|
    ensures forall i :: 0 <= i < |ops| ==> r[i] == ops[i].Map(f)
  {
    MapSeq((op: Operation<T>) => op.Map(f), ops)
  }

  /**
   * Applying the mapped operation to the mapped contents gives the mapped
   * result of applying the operation: `map` commutes with `Apply`.
   */
  lemma ApplyMapCommutes<T, U>(f: T -> U, s: seq<T>, op: Operation<T>)
    requires op.IsValidFor(|s|)
    ensures op.Map(f).IsValidFor(|MapSeq(f, s)|)
    ensures Apply(MapSeq(f, s), op.Map(f)) == MapSeq(f, Apply(s, op))
  {
    var m := MapSeq(f, s);
    match op
    case Initiate(xs) =>
    case Append(v) =>
      MapSeqConcat(f, s, [v]);
      assert MapSeq(f, [v]) == [f(v)];
    case AppendContentsOf(xs) =>
      MapSeqConcat(f, s, xs);
    case Insert(v, i) =>
      MapSeqSlices(f, s, i);
      MapSeqConcat(f, s[..i], [v]);
      MapSeqConcat(f, s[..i] + [v], s[i..]);
      assert MapSeq(f, [v]) == [f(v)];
      assert Apply(m, op.Map(f)) == m[..i] + [f(v)] + m[i..];
    case Replace(v, i) =>
      MapSeqUpdate(f, s, i, v);
      assert Apply(m, op.Map(f)) == m[i := f(v)];
    case RemoveElement(i) =>
      MapSeqSlices(f, s, i);
      MapSeqSlices(f, s, i + 1);
      MapSeqConcat(f, s[..i], s[i + 1..]);
      assert Apply(m, op.Map(f)) == m[..i] + m[i + 1..];
    case ReplaceAll(xs) =>
    case RemoveAll(k) =>
  }

  lemma MapSeqConcat<T, U>(f: T -> U, a: seq<T>, b: seq<T>)
    ensures MapSeq(f, a + b) == MapSeq(f, a) + MapSeq(f, b)
  {
    assert |MapSeq(f, a + b)| == |MapSeq(f, a) + MapSeq(f, b)|;
    forall i | 0 <= i < |a + b|
      ensures MapSeq(f, a + b)[i] == (MapSeq(f, a) + MapSeq(f, b))[i]
    {
      if i < |a| {
        assert (a + b)[i] == a[i];
      } else {
        assert (a + b)[i] == b[i - |a|];
      }
    }
  }

  lemma MapSeqSlices<T, U>(f: T -> U, s: seq<T>, i: nat)
    requires i <= |s|
    ensures MapSeq(f, s[..i]) == MapSeq(f, s)[..i]
    ensures MapSeq(f, s[i..]) == MapSeq(f, s)[i..]
  {
    forall j | 0 <= j < |s[i..]|
      ensures MapSeq(f, s[i..])[j] == MapSeq(f, s)[i..][j]
    {
      assert s[i..][j] == s[i + j];
    }
  }

  lemma MapSeqUpdate<T, U>(f: T -> U, s: seq<T>, i: nat, v: T)
    requires i < |s|
    ensures MapSeq(f, s[i := v]) == MapSeq(f, s)[i := f(v)]
  {
  }

  /**
   * A mirror that starts from the mapped snapshot and applies the mapped
   * operation stream always holds the mapped contents of its source.
   */
  lemma {:induction false} MirrorTracksSource<T, U>(f: T -> U, s: seq<T>, ops: seq<Operation<T>>)
    requires ApplyAll(s, ops).Some?
    ensures ApplyAll(MapSeq(f, s), MapOps(f, ops)) == Some(MapSeq(f, ApplyAll(s, ops).value))
    decreases |ops|
  {
    if |ops| > 0 {
      ApplyMapCommutes(f, s, ops[0]);
      assert MapOps(f, ops)[1..] == MapOps(f, ops[1..]);
      MirrorTracksSource(f, Apply(s, ops[0]), ops[1..]);
    }
  }

  /** Mapping one more source operation appends its mapped operation to the mirror's stream. */
  lemma MapOpsSnoc<T, U>(f: T -> U, ops: seq<Operation<T>>, op: Operation<T>)
    ensures MapOps(f, ops + [op]) == MapOps(f, ops) + [op.Map(f)]
  {
  }
}
