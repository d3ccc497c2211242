/**
 * Constant containers: the values of an array constant in element order,
 * with its shape (rank 0 is a scalar), and the element-wise mapping of
 * scalar operations over conforming constant operands.
 */
module Constants {

  datatype Constant<T> = Constant(values: seq<T>, shape: seq<nat>)

  /** The element count of a shape: the product of its extents. */
  function Size(shape: seq<nat>): nat
  {
    if shape == [] then 1 else shape[0] * Size(shape[1..])
  }

  /** A constant holds exactly as many values as its shape has elements. */
  predicate Valid<T>(c: Constant<T>)
  {
    |c.values| == Size(c.shape)
  }

  function ScalarConstant<T>(v: T): (c: Constant<T>)
    ensures Valid(c) && c.shape == [] && c.values == [v]
  {
    Constant([v], [])
  }

  /** Applies a scalar operation to every value of a constant, keeping its shape. */
  function Map<A, B>(f: A -> B, c: Constant<A>): (r: Constant<B>)
    ensures r.shape == c.shape && |r.values| == |c.values|
    ensures Valid(c) ==> Valid(r)
    ensures forall i :: 0 <= i < |c.values| ==> r.values[i] == f(c.values[i])
  {
    Constant(seq(|c.values|, i requires 0 <= i < |c.values| => f(c.values[i])), c.shape)
  }

  /** Two shapes conform when they are equal or one of them is a scalar's. */
  predicate Conformable(s: seq<nat>, t: seq<nat>)
  {
    s == [] || t == [] || s == t
  }

  function CommonShape(s: seq<nat>, t: seq<nat>): seq<nat>
  {
    if s == [] then t else s
  }

  /** Element i of an operand, a scalar standing for every element. */
  function ElementAt<T>(c: Constant<T>, i: nat): T
    requires Valid(c)
    requires c.shape == [] || i < |c.values|
  {
    if c.shape == [] then c.values[0] else c.values[i]
  }

  /** Applies a binary scalar operation element-wise, broadcasting a scalar operand. */
  function Map2<A, B, C>(f: (A, B) -> C, x: Constant<A>, y: Constant<B>): (r: Constant<C>)
    requires Valid(x) && Valid(y) && Conformable(x.shape, y.shape)
    ensures Valid(r) && r.shape == CommonShape(x.shape, y.shape)
    ensures x.shape != [] ==> |r.values| == |x.values|
    ensures y.shape != [] ==> |r.values| == |y.values|
    ensures forall i :: 0 <= i < |r.values| ==> r.values[i] == f(ElementAt(x, i), ElementAt(y, i))
  {
    var shape := CommonShape(x.shape, y.shape);
    Constant(seq(Size(shape), i requires 0 <= i < Size(shape) => f(ElementAt(x, i), ElementAt(y, i))), shape)
  }
}
