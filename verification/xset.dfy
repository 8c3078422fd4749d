/** Extended sets: values that are either a finite set or the complement of a
    finite set, over an element universe that is never enumerated.

    A value is a finite set `items` plus a `complementary` flag. With the flag
    clear it denotes exactly `items`; with the flag set it denotes every
    element except `items`. `Mem` is that denotation, and every contract below
    is stated against it. */
module XSets {

  datatype XSet<E(!new)> = XSet(items: set<E>, complementary: bool)
  {
    /** Membership under the denotation: `x` belongs to the value iff its
        presence in `items` differs from the `complementary` flag. */
    predicate Mem(x: E) {
      (x in items) != complementary
    }

    /** A finite value has exactly its items as members; a non-finite one is
        cofinite: everything outside its items is a member. */
    function IsFinite(): (r: bool)
      ensures r == !complementary
      ensures r ==> forall x :: Mem(x) <==> x in items
      ensures !r ==> forall x :: Mem(x) <==> x !in items
    {
      !complementary
    }

    /** A trivial value has no items, so either nothing or everything is a
        member; a non-trivial value has some element in its items. */
    function IsTrivial(): (r: bool)
      ensures r ==> (forall x :: Mem(x)) || (forall x :: !Mem(x))
      ensures !r ==> exists x :: x in items
    {
      items == {}
    }

    /** The empty value: finite and trivial, with no members at all. */
    function IsEmpty(): (r: bool)
      ensures r <==> IsFinite() && IsTrivial()
      ensures r ==> forall x :: !Mem(x)
    {
      !complementary && items == {}
    }

    /** The full value: complementary and trivial, so every element is a
        member. */
    function IsFull(): (r: bool)
      ensures r <==> !IsFinite() && IsTrivial()
      ensures r ==> forall x :: Mem(x)
    {
      complementary && items == {}
    }

    /** The complement keeps `items`, flips the flag, and so negates the
        membership of every element; a trivial value is mapped to the other
        canonical trivial value. */
    function Complement(): (r: XSet<E>)
      ensures forall x :: r.Mem(x) <==> !Mem(x)
      ensures r.items == items
      ensures r.complementary == !complementary
      ensures IsEmpty() ==> r == Full()
      ensures IsFull() ==> r == Empty()
    {
      if items == {} then
        (if complementary then Empty() else Full())
      else
        XSet(items, !complementary)
    }

    /** Intersection. Trivial operands short-circuit (empty absorbs, full is
        the identity and the other operand is returned as it is); otherwise
        the case table of `IntersectItems` computes the items and the result
        is complementary only when both operands are. */
    function Intersect(other: XSet<E>): (r: XSet<E>)
      ensures forall x :: r.Mem(x) <==> Mem(x) && other.Mem(x)
      ensures IsEmpty() || other.IsEmpty() ==> r == Empty()
      ensures IsFull() ==> r == other
      ensures other.IsFull() ==> r == this
      ensures !IsTrivial() && !other.IsTrivial() ==>
                r.complementary == (complementary && other.complementary)
    {
      if items == {} then
        (if complementary then other else this)
      else if other.items == {} then
        (if other.complementary then this else other)
      else
        CanonicalXSet(IntersectItems(other), complementary && other.complementary)
    }

    /** The items of a non-trivial intersection, by the four-case table:
        finite/finite A*B, finite/complement A-B, complement/finite B-A,
        complement/complement A+B. Read with the flag `cA && cB`, they denote
        exactly the elements both operands contain. */
    function IntersectItems(other: XSet<E>): (r: set<E>)
      ensures forall x :: (x in r) != (complementary && other.complementary)
                <==> Mem(x) && other.Mem(x)
      ensures r <= items + other.items
    {
      if complementary then
        if other.complementary then SetUnion(items, other.items)
        else SetMinus(other.items, items)
      else if other.complementary then SetMinus(items, other.items)
      else SetIntersect(items, other.items)
    }

    /** Value equality: the flags agree and the item sets are equal as sets,
        whatever sequence built them. Equal values have the same members. */
    function Equals(other: XSet<E>): (r: bool)
      ensures r <==> this == other
      ensures r ==> forall x :: Mem(x) <==> other.Mem(x)
    {
      complementary == other.complementary && items == other.items
    }
  }

  /** The canonical empty value: nothing is a member. */
  function Empty<E(!new)>(): (r: XSet<E>)
    ensures forall x :: !r.Mem(x)
    ensures r.IsFinite()
  {
    XSet({}, false)
  }

  /** The canonical full value, the complement of the empty one: everything
      is a member. */
  function Full<E(!new)>(): (r: XSet<E>)
    ensures forall x :: r.Mem(x)
    ensures !r.IsFinite()
  {
    XSet({}, true)
  }

  /** The finite value holding exactly the distinct elements of `xs`. */
  function Of<E(!new)>(xs: seq<E>): (r: XSet<E>)
    ensures r.IsFinite()
    ensures forall x :: r.Mem(x) <==> x in xs
    ensures |xs| == 0 ==> r == Empty()
  {
    ToXSet(xs, false)
  }

  /** The complementary value excluding exactly the distinct elements of
      `xs`. */
  function ComplementOf<E(!new)>(xs: seq<E>): (r: XSet<E>)
    ensures !r.IsFinite()
    ensures forall x :: r.Mem(x) <==> x !in xs
    ensures |xs| == 0 ==> r == Full()
  {
    ToXSet(xs, true)
  }

  /** Shared constructor: an empty input yields a canonical trivial value,
      anything else keeps the given flag and the distinct elements. */
  function ToXSet<E(!new)>(xs: seq<E>, complementary: bool): (r: XSet<E>)
    ensures r.complementary == complementary
    ensures forall x :: x in r.items <==> x in xs
    ensures |xs| == 0 ==> r == (if complementary then Full() else Empty())
    ensures |xs| > 0 ==> !r.IsTrivial()
  {
    if |xs| == 0 then
      (if complementary then Full() else Empty())
    else
      XSet(NonEmptyCollectionToSet(xs), complementary)
  }

  /** The set of a non-empty collection. A one-element collection and a
      collection whose elements are all equal both give the singleton of its
      first element; the result always holds exactly the elements of `xs`. */
  function NonEmptyCollectionToSet<E(!new)>(xs: seq<E>): (r: set<E>)
    requires |xs| > 0
    ensures forall x :: x in r <==> x in xs
    ensures xs[0] in r
  {
    if |xs| == 1 then
      {xs[0]}
    else
      var s := Elements(xs);
      if |s| == 1 then
        SingletonOfMember(s, xs[0]);
        {xs[0]}
      else
        s
  }

  /** The distinct elements of a sequence, gathered one element at a time as
      a hash set copy does. */
  function Elements<E(!new)>(xs: seq<E>): (r: set<E>)
    ensures forall x :: x in r <==> x in xs
    ensures |r| <= |xs|
  {
    if |xs| == 0 then {}
    else {xs[0]} + Elements(xs[1..])
  }

  /** A set of size one is the singleton of any of its members. */
  lemma SingletonOfMember<E(!new)>(s: set<E>, y: E)
    requires |s| == 1 && y in s
    ensures s == {y}
  {
    assert |s - {y}| == 0;
  }

  /** Finite-set intersection. */
  function SetIntersect<E(!new)>(s1: set<E>, s2: set<E>): (r: set<E>)
    ensures forall x :: x in r <==> x in s1 && x in s2
  {
    s1 * s2
  }

  /** Finite-set union. */
  function SetUnion<E(!new)>(s1: set<E>, s2: set<E>): (r: set<E>)
    ensures forall x :: x in r <==> x in s1 || x in s2
  {
    s1 + s2
  }

  /** Finite-set difference. */
  function SetMinus<E(!new)>(s1: set<E>, s2: set<E>): (r: set<E>)
    ensures forall x :: x in r <==> x in s1 && x !in s2
  {
    s1 - s2
  }

  /** Wraps computed items and a flag into a value; empty items become the
      canonical empty or full value, and the denotation is the one the items
      and flag describe. */
  function CanonicalXSet<E(!new)>(items: set<E>, complementary: bool): (r: XSet<E>)
    ensures forall x :: r.Mem(x) <==> (x in items) != complementary
    ensures r.IsFinite() == !complementary
    ensures items == {} ==> r.IsTrivial()
  {
    if items == {} then
      (if complementary then Full() else Empty())
    else
      XSet(items, complementary)
  }
}
