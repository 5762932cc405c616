/**
 * The generic pair `Pair<T, U>` of GraphLib, as the graph library instantiates it:
 * `Pair<int, double>`, an edge `(target vertex, weight)`. Weights are modelled as
 * `real` (no NaN, no rounding). The pair is a value: the core never changes a pair
 * after building it.
 */
module Pairs {

  datatype Pair = Pair(First: int, Second: real)

  /** `Pair()`: both components take their type's default value. */
  function Default(): (p: Pair)
    ensures p.First == 0 && p.Second == 0.0
  {
    Pair(0, 0.0)
  }

  /** `Pair(first, second)`: the two-argument constructor. */
  function Make(first: int, second: real): (p: Pair)
    ensures p.First == first && p.Second == second
  {
    Pair(first, second)
  }

  /** `Int32.CompareTo`: -1, 0 or 1. */
  function CompareInt(a: int, b: int): (r: int)
    ensures -1 <= r <= 1
    ensures r < 0 <==> a < b
    ensures r == 0 <==> a == b
  {
    if a < b then -1 else if a > b then 1 else 0
  }

  /** `Double.CompareTo` on numbers (NaN is not modelled): -1, 0 or 1. */
  function CompareReal(a: real, b: real): (r: int)
    ensures -1 <= r <= 1
    ensures r < 0 <==> a < b
    ensures r == 0 <==> a == b
  {
    if a < b then -1 else if a > b then 1 else 0
  }

  /** `p.CompareTo(q)`: the first components decide unless they tie. */
  function CompareTo(p: Pair, q: Pair): (r: int)
    ensures -1 <= r <= 1
    ensures p.First != q.First ==> r == CompareInt(p.First, q.First)
    ensures r < 0 <==> p.First < q.First || (p.First == q.First && p.Second < q.Second)
    ensures r == 0 <==> p == q
    ensures r > 0 <==> p.First > q.First || (p.First == q.First && p.Second > q.Second)
  {
    var result := CompareInt(p.First, q.First);
    if result == 0 then CompareReal(p.Second, q.Second) else result
  }

  // The six comparison operators of Pair.cs, each a sign test on CompareTo; each contract
  // states the lexicographic order they amount to.

  predicate Greater(p: Pair, q: Pair)
    ensures Greater(p, q) <==> q.First < p.First || (q.First == p.First && q.Second < p.Second)
  {
    CompareTo(p, q) > 0
  }

  predicate Less(p: Pair, q: Pair)
    ensures Less(p, q) <==> p.First < q.First || (p.First == q.First && p.Second < q.Second)
  {
    CompareTo(p, q) < 0
  }

  predicate GreaterOrEqual(p: Pair, q: Pair)
    ensures GreaterOrEqual(p, q) <==> q.First < p.First || (q.First == p.First && q.Second <= p.Second)
  {
    CompareTo(p, q) >= 0
  }

  predicate LessOrEqual(p: Pair, q: Pair)
    ensures LessOrEqual(p, q) <==> p.First < q.First || (p.First == q.First && p.Second <= q.Second)
  {
    CompareTo(p, q) <= 0
  }

  predicate Equal(p: Pair, q: Pair)
    ensures Equal(p, q) <==> p == q
  {
    CompareTo(p, q) == 0
  }

  predicate NotEqual(p: Pair, q: Pair)
    ensures NotEqual(p, q) <==> p != q
  {
    CompareTo(p, q) != 0
  }

  /** A reference of static type `Pair<int, double>`: null or a pair. */
  datatype PairRef = NullPair | PairRef(pair: Pair)

  /** The argument of `Equals(object)`: null, a pair, or an object of another class. */
  datatype Object = Null | PairObject(pair: Pair) | OtherObject

  /** `obj as Pair<int, double>`: null unless the object is a pair. */
  function AsPair(obj: Object): (r: PairRef)
    ensures r.PairRef? <==> obj.PairObject?
    ensures r.PairRef? ==> r.pair == obj.pair
  {
    match obj
    case PairObject(q) => PairRef(q)
    case _ => NullPair
  }

  /** `Equals(Pair other)`: false for null, otherwise the `==` operator. */
  function EqualsPair(p: Pair, other: PairRef): (r: bool)
    ensures r <==> other.PairRef? && other.pair == p
  {
    match other
    case NullPair => false
    case PairRef(q) => Equal(p, q)
  }

  /** `Equals(object obj)`: false for null, otherwise `Equals(obj as Pair)`. */
  function EqualsObject(p: Pair, obj: Object): (r: bool)
    ensures r <==> obj.PairObject? && obj.pair == p
    ensures obj.PairObject? ==> (r <==> Equal(p, obj.pair))
  {
    if obj.Null? then false else EqualsPair(p, AsPair(obj))
  }

  lemma CompareToReflexive(p: Pair)
    ensures CompareTo(p, p) == 0
  {
  }

  lemma CompareToAntisymmetric(p: Pair, q: Pair)
    ensures CompareTo(p, q) == -CompareTo(q, p)
  {
  }

  lemma CompareToTransitive(p: Pair, q: Pair, s: Pair)
    requires LessOrEqual(p, q) && LessOrEqual(q, s)
    ensures LessOrEqual(p, s)
    ensures Less(p, q) || Less(q, s) ==> Less(p, s)
  {
  }

  lemma CompareToTotal(p: Pair, q: Pair)
    ensures LessOrEqual(p, q) || LessOrEqual(q, p)
    ensures LessOrEqual(p, q) && LessOrEqual(q, p) ==> p == q
  {
  }

  lemma OperatorsAgree(p: Pair, q: Pair)
    ensures (if Less(p, q) then 1 else 0) + (if Equal(p, q) then 1 else 0) + (if Greater(p, q) then 1 else 0) == 1
    ensures LessOrEqual(p, q) <==> !Greater(p, q)
    ensures GreaterOrEqual(p, q) <==> !Less(p, q)
    ensures NotEqual(p, q) <==> !Equal(p, q)
    ensures Less(p, q) <==> Greater(q, p)
    ensures Equal(p, q) <==> p == q
  {
  }
}
