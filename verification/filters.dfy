/** The filter algebra shared by the cursor, method and type filters: a
    filter wraps a predicate, and `|`, `&`, `!`, `MatchAll`, `MatchAny`
    build new filters without touching their operands. */
module Filters {

  datatype Filter<-T> = Filter(pred: T -> bool)

  /** Whether `f` admits `x`. */
  function Apply<T>(f: Filter<T>, x: T): bool
  {
    f.pred(x)
  }

  /** `left | right` */
  function Or<T(!new)>(left: Filter<T>, right: Filter<T>): (f: Filter<T>)
    ensures forall x :: Apply(f, x) == (Apply(left, x) || Apply(right, x))
  {
    Filter(x => left.pred(x) || right.pred(x))
  }

  /** `left & right` */
  function And<T(!new)>(left: Filter<T>, right: Filter<T>): (f: Filter<T>)
    ensures forall x :: Apply(f, x) == (Apply(left, x) && Apply(right, x))
  {
    Filter(x => left.pred(x) && right.pred(x))
  }

  /** `!self` */
  function Not<T(!new)>(self: Filter<T>): (f: Filter<T>)
    ensures forall x :: Apply(f, x) == !Apply(self, x)
  {
    Filter(x => !self.pred(x))
  }

  /** The filter that admits everything. */
  function Always<T(!new)>(): (f: Filter<T>)
    ensures forall x :: Apply(f, x)
  {
    Filter(x => true)
  }

  /** The filter that admits nothing. */
  function Never<T(!new)>(): (f: Filter<T>)
    ensures forall x :: !Apply(f, x)
  {
    Filter(x => false)
  }

  /** `MatchAll(filters)`: admits what every filter admits. Built as a
      left-to-right `&` chain ending in the always-true filter. */
  function MatchAll<T(!new)>(filters: seq<Filter<T>>): (f: Filter<T>)
    ensures forall x :: Apply(f, x) <==> (forall i :: 0 <= i < |filters| ==> Apply(filters[i], x))
  {
    if |filters| == 0 then Always() else And(filters[0], MatchAll(filters[1..]))
  }

  /** `MatchAny(filters)`: admits what some filter admits. Built as a
      left-to-right `|` chain ending in the always-false filter. */
  function MatchAny<T(!new)>(filters: seq<Filter<T>>): (f: Filter<T>)
    ensures forall x :: Apply(f, x) <==> (exists i :: 0 <= i < |filters| && Apply(filters[i], x))
  {
    if |filters| == 0 then Never() else Or(filters[0], MatchAny(filters[1..]))
  }

  /** `MatchAll` and `MatchAny` at the edges: the empty conjunction admits
      everything, the empty disjunction nothing, and over two filters they
      agree with `&` and `|`. */
  lemma CombinationLaws<T(!new)>(left: Filter<T>, right: Filter<T>, x: T)
    ensures Apply(MatchAll<T>([]), x)
    ensures !Apply(MatchAny<T>([]), x)
    ensures Apply(MatchAll([left, right]), x) == Apply(And(left, right), x)
    ensures Apply(MatchAny([left, right]), x) == Apply(Or(left, right), x)
  {
  }

  /** Each filter of `filters` negated, in order. */
  function Negations<T(!new)>(filters: seq<Filter<T>>): (r: seq<Filter<T>>)
    ensures |r| == |filters|
  {
    if |filters| == 0 then [] else [Not(filters[0])] + Negations(filters[1..])
  }

  /** De Morgan: negating `MatchAny` is `MatchAll` of the negations. */
  lemma {:induction false} NotMatchAny<T(!new)>(filters: seq<Filter<T>>, x: T)
    ensures !Apply(MatchAny(filters), x) == Apply(MatchAll(Negations(filters)), x)
  {
    if |filters| > 0 {
      NotMatchAny(filters[1..], x);
      assert Negations(filters)[1..] == Negations(filters[1..]);
    }
  }
}
