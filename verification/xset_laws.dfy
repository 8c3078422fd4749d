/** Algebraic laws of extended sets: canonical construction, double
    complement, commutativity and idempotence of intersection, and the link
    between value equality and the denotation. */
module XSetLaws {
  import opened XSets

  /** Construction ignores order and duplicates: two inputs give equal
      finite values exactly when they hold the same elements. */
  lemma OfEqualIff<E(!new)>(xs: seq<E>, ys: seq<E>)
    ensures Of(xs).Equals(Of(ys)) <==> (forall x :: x in xs <==> x in ys)
  {
  }

  /** The same for complementary values. */
  lemma ComplementOfEqualIff<E(!new)>(xs: seq<E>, ys: seq<E>)
    ensures ComplementOf(xs).Equals(ComplementOf(ys)) <==> (forall x :: x in xs <==> x in ys)
  {
  }

  /** A finite value built by `Of` is never equal to one built by
      `ComplementOf`, and the two constructions are each other's complement. */
  lemma OfComplementOfDuality<E(!new)>(xs: seq<E>)
    ensures !Of(xs).Equals(ComplementOf(xs))
    ensures Of(xs).Complement() == ComplementOf(xs)
    ensures ComplementOf(xs).Complement() == Of(xs)
  {
  }

  /** Complementing twice gives back the original value. */
  lemma DoubleComplement<E(!new)>(s: XSet<E>)
    ensures s.Complement().Complement() == s
  {
  }

  /** Intersection is commutative as a value, not only in its members. */
  lemma IntersectCommutes<E(!new)>(a: XSet<E>, b: XSet<E>)
    ensures a.Intersect(b) == b.Intersect(a)
  {
  }

  /** Intersecting a value with itself gives the value back. */
  lemma IntersectIdempotent<E(!new)>(a: XSet<E>)
    ensures a.Intersect(a) == a
  {
  }

  /** Every finite set of strings misses some string: one longer than all of
      its members. */
  lemma {:induction false} LengthBound(s: set<string>) returns (n: nat)
    ensures forall w :: w in s ==> |w| < n
    decreases s
  {
    if s == {} {
      n := 0;
    } else {
      var w :| w in s;
      var m := LengthBound(s - {w});
      n := if m > |w| then m else |w| + 1;
    }
  }

  /** A string that is not in the given finite set. */
  lemma FreshString(s: set<string>) returns (w: string)
    ensures w !in s
  {
    var n := LengthBound(s);
    w := seq(n, _ => 'a');
  }

  /** Over strings, an infinite universe, two values have the same members
      exactly when they are equal: the representation is canonical. */
  lemma {:induction false} EqualsIffSameMembers(a: XSet<string>, b: XSet<string>)
    ensures a.Equals(b) <==> (forall x :: a.Mem(x) <==> b.Mem(x))
  {
    if forall x :: a.Mem(x) <==> b.Mem(x) {
      var w := FreshString(a.items + b.items);
      assert a.Mem(w) == a.complementary && b.Mem(w) == b.complementary;
      assert a.items == b.items by {
        forall x
          ensures x in a.items <==> x in b.items
        {
          assert a.Mem(x) <==> b.Mem(x);
        }
      }
    }
  }

  /** The members of `s` are exactly the elements of the finite set `S`. */
  ghost predicate MembersAre<E(!new)>(s: XSet<E>, S: set<E>) {
    forall x :: s.Mem(x) <==> x in S
  }

  /** Over strings the derived predicates mean what their names say: finite
      exactly when some finite set holds precisely the members, empty has no
      members, full has every string, trivial is one of the two. */
  lemma {:induction false} PredicatesMeaning(s: XSet<string>)
    ensures s.IsFinite() <==> exists S: set<string> :: MembersAre(s, S)
    ensures s.IsEmpty() <==> (forall x :: !s.Mem(x))
    ensures s.IsFull() <==> (forall x :: s.Mem(x))
    ensures s.IsTrivial() <==> s.IsEmpty() || s.IsFull()
  {
    if exists S: set<string> :: MembersAre(s, S) {
      var S: set<string> :| MembersAre(s, S);
      var w := FreshString(S + s.items);
      assert !s.Mem(w);
    }
    if s.IsFinite() {
      assert MembersAre(s, s.items);
    }
    if forall x :: !s.Mem(x) {
      EqualsIffSameMembers(s, Empty());
    }
    if forall x :: s.Mem(x) {
      EqualsIffSameMembers(s, Full());
    }
  }

  /** Over a finite universe the representation is not canonical: the finite
      value holding both booleans has every member the full value has, yet
      the two are not equal; and the complement of `true` has the finite
      member set `{false}`, yet it is not finite. */
  lemma FiniteUniverseNotCanonical()
    ensures var a := Of([false, true]);
            (forall x :: a.Mem(x) <==> Full<bool>().Mem(x)) && !a.Equals(Full())
    ensures var c := ComplementOf([true]);
            MembersAre(c, {false}) && !c.IsFinite()
  {
  }

  /** The four-case table of a non-trivial intersection: the flag is the
      conjunction of the operands' flags and the items are A*B, A-B, B-A or
      A+B according to which operands are complementary. */
  lemma IntersectCaseTable<E(!new)>(a: XSet<E>, b: XSet<E>)
    requires !a.IsTrivial() && !b.IsTrivial()
    ensures a.Intersect(b).complementary == (a.complementary && b.complementary)
    ensures !a.complementary && !b.complementary ==> a.Intersect(b).items == a.items * b.items
    ensures !a.complementary && b.complementary ==> a.Intersect(b).items == a.items - b.items
    ensures a.complementary && !b.complementary ==> a.Intersect(b).items == b.items - a.items
    ensures a.complementary && b.complementary ==> a.Intersect(b).items == a.items + b.items
  {
  }

  /** A finite value intersected with a complementary one keeps the finite
      items the complement does not exclude (day-name sample). */
  lemma IntersectFiniteWithComplement()
    ensures Of(["Mon", "Tue"]).Intersect(ComplementOf(["Sun", "Mon"])) == Of(["Tue"])
  {
  }

  /** Two complementary values intersect to the complement of the union of
      their excluded items (day-name sample). */
  lemma IntersectTwoComplements()
    ensures ComplementOf(["Mon"]).Intersect(ComplementOf(["Sun"])) == ComplementOf(["Sun", "Mon"])
  {
  }

  /** Disjoint finite values intersect to the canonical empty value
      (day-name sample). */
  lemma IntersectDisjointIsEmpty()
    ensures Of(["Mon", "Tue"]).Intersect(Of(["Sat", "Sun"])) == Empty()
  {
  }

  /** Construction collapses duplicates and ignores order on day names. */
  lemma ConstructionDayExamples()
    ensures Of(["Mon", "Mon"]) == Of(["Mon"])
    ensures Of(["Mon", "Tue", "Mon"]).items == {"Mon", "Tue"}
    ensures Of(["Mon", "Tue"]).Equals(Of(["Tue", "Mon"]))
    ensures ComplementOf(["Mon", "Tue"]).Equals(ComplementOf(["Tue", "Mon"]))
    ensures !Of(["Mon"]).Equals(ComplementOf(["Mon"]))
  {
  }

  /** The empty constructions complement to the other canonical trivial
      value. */
  lemma EmptyConstructionComplements()
    ensures Of<string>([]).Complement() == Full()
    ensures ComplementOf<string>([]).Complement() == Empty()
  {
  }
}
