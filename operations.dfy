/**
 * The `Operation` record that a reactive array emits for every mutation:
 * a closed sum type with enough payload to replay the mutation, and its
 * three pure observers `map`, `value` and `arrayValue`.
 *
 * Equality of operations is Dafny's structural datatype equality: two
 * operations are equal exactly when they are the same variant with equal
 * payloads, which is what Swift's `==` on `Operation` promises.
 */
module Operations {
  import opened Options

  /** Applies `f` to every element of `s`, keeping their order. */
  function MapSeq<T, U>(f: T -> U, s: seq<T>): (r: seq<U>)
    ensures |r| == |s|
    ensures forall i :: 0 <= i < |s| ==> r[i] == f(s[i])
  {
    if |s| == 0 then [] else [f(s[0])] + MapSeq(f, s[1..])
  }

  datatype Operation<T> =
    | Initiate(values: seq<T>)
    | Append(value: T)
    | AppendContentsOf(values: seq<T>)
    | Insert(value: T, atIndex: nat)
    | Replace(value: T, atIndex: nat)
    | RemoveElement(atIndex: nat)
    | ReplaceAll(values: seq<T>)
    | RemoveAll(keepCapacity: bool)
  {
    /** `map(f)`: the same variant with every element of the payload transformed. */
    function Map<U>(f: T -> U): Operation<U>
    {
      match this
      case Initiate(xs) => Initiate(MapSeq(f, xs))
      case Append(v) => Append(f(v))
      case AppendContentsOf(xs) => AppendContentsOf(MapSeq(f, xs))
      case Insert(v, i) => Insert(f(v), i)
      case Replace(v, i) => Replace(f(v), i)
      case RemoveElement(i) => RemoveElement(i)
      case ReplaceAll(xs) => ReplaceAll(MapSeq(f, xs))
      case RemoveAll(keep) => RemoveAll(keep)
    }

    /** `value`: the single element carried by `Append`, `Insert` and `Replace`. */
    function Value(): (r: Option<T>)
      ensures r.Some? <==> Append? || Insert? || Replace?
      ensures r.Some? ==> r.value == value
    {
      match this
      case Append(v) => Some(v)
      case Insert(v, _) => Some(v)
      case Replace(v, _) => Some(v)
      case _ => None
    }

    /** `arrayValue`: the sequence carried by `Initiate`, `AppendContentsOf` and `ReplaceAll`. */
    function ArrayValue(): (r: Option<seq<T>>)
      ensures r.Some? <==> Initiate? || AppendContentsOf? || ReplaceAll?
      ensures r.Some? ==> r.value == values
    {
      match this
      case Initiate(xs) => Some(xs)
      case AppendContentsOf(xs) => Some(xs)
      case ReplaceAll(xs) => Some(xs)
      case _ => None
    }

    /**
     * The operation could have been produced by an array of `n` elements:
     * the index of `Insert` is at most `n`, and those of `Replace` and
     * `RemoveElement` are below `n`.
     */
    predicate IsValidFor(n: nat)
    {
      match this
      case Insert(_, i) => i <= n
      case Replace(_, i) => i < n
      case RemoveElement(i) => i < n
      case _ => true
    }
  }

  /**
   * `a` and `b` are the same variant with the same indices, the same flag
   * and payload sequences of the same length: they differ at most in the
   * elements they carry.
   */
  predicate SameShape<T, U>(a: Operation<T>, b: Operation<U>)
  {
    || (a.Initiate? && b.Initiate? && |a.values| == |b.values|)
    || (a.Append? && b.Append?)
    || (a.AppendContentsOf? && b.AppendContentsOf? && |a.values| == |b.values|)
    || (a.Insert? && b.Insert? && a.atIndex == b.atIndex)
    || (a.Replace? && b.Replace? && a.atIndex == b.atIndex)
    || (a.RemoveElement? && b.RemoveElement? && a.atIndex == b.atIndex)
    || (a.ReplaceAll? && b.ReplaceAll? && |a.values| == |b.values|)
    || (a.RemoveAll? && b.RemoveAll? && a.keepCapacity == b.keepCapacity)
  }

  /** `map` keeps the variant, every index and the `keepCapacity` flag. */
  lemma MapKeepsShape<T, U>(op: Operation<T>, f: T -> U)
    ensures SameShape(op, op.Map(f))
    ensures forall n: nat :: op.Map(f).IsValidFor(n) <==> op.IsValidFor(n)
  {
  }

  /** `map` transforms the payload: `value` and `arrayValue` of the mapped operation are the mapped observers. */
  lemma MapTransformsPayload<T, U>(op: Operation<T>, f: T -> U)
    ensures op.Map(f).Value() == op.Value().Map(f)
    ensures op.Map(f).ArrayValue() == op.ArrayValue().Map(xs => MapSeq(f, xs))
  {
  }

  /** `map` on the index-only variants `RemoveElement` and `RemoveAll` is the identity. */
  lemma MapIndexOnlyIsIdentity<T>(op: Operation<T>, f: T -> T)
    requires op.RemoveElement? || op.RemoveAll?
    ensures op.Map(f) == op
  {
  }

  lemma MapSeqIdentity<T>(s: seq<T>)
    ensures MapSeq(x => x, s) == s
  {
  }

  lemma MapSeqCompose<T, U, V>(f: T -> U, g: U -> V, s: seq<T>)
    ensures MapSeq(g, MapSeq(f, s)) == MapSeq(x => g(f(x)), s)
  {
  }

  /** Mapping by the identity changes nothing. */
  lemma MapIdentity<T>(op: Operation<T>)
    ensures op.Map(x => x) == op
  {
    match op
    case Initiate(xs) => MapSeqIdentity(xs);
    case AppendContentsOf(xs) => MapSeqIdentity(xs);
    case ReplaceAll(xs) => MapSeqIdentity(xs);
    case _ =>
  }

  /** Mapping by `f` and then by `g` is mapping by their composition. */
  lemma MapCompose<T, U, V>(op: Operation<T>, f: T -> U, g: U -> V)
    ensures op.Map(f).Map(g) == op.Map(x => g(f(x)))
  {
    match op
    case Initiate(xs) => MapSeqCompose(f, g, xs);
    case AppendContentsOf(xs) => MapSeqCompose(f, g, xs);
    case ReplaceAll(xs) => MapSeqCompose(f, g, xs);
    case _ =>
  }

  /** No operation carries both a single value and a sequence; the index-only variants carry neither. */
  lemma ObserversExclusive<T>(op: Operation<T>)
    ensures !(op.Value().Some? && op.ArrayValue().Some?)
    ensures op.RemoveElement? || op.RemoveAll? <==> op.Value().None? && op.ArrayValue().None?
  {
  }
}
