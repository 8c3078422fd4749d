# Extended sets (XSet) in Dafny

A model of `XSet<E>`, an immutable "extended set". It is either a finite set
or the complement of a finite set. A value is a finite set `items` and a
`complementary` flag. With the flag clear it denotes `items`. With the flag
set it denotes every element except `items`.

The model lives in two modules:

- `XSets` (`xset.dfy`) holds the datatype `XSet(items: set<E>, complementary: bool)`
  and the operations of the Java class. These are the factories `Empty`,
  `Full`, `Of` and `ComplementOf` and their shared `ToXSet` and
  `NonEmptyCollectionToSet`. Then come the predicates `IsFinite`, `IsEmpty`,
  `IsFull` and `IsTrivial`, then `Complement`, then `Intersect` with its case
  table `IntersectItems`, the finite-set helpers and `CanonicalXSet`. Last is
  value equality `Equals`. A Java varargs array or collection is a `seq<E>`.
  `getItems()` and `isComplementary()` are the datatype's `items` and
  `complementary` fields.
- `XSetLaws` (`xset_laws.dfy`) holds lemmas relating the operations. They
  cover construction ignoring order and duplicates, double complement, and the
  commutativity, idempotence and case table of intersection. They also relate
  value equality to the denotation, and prove the behaviour the tests expect
  on day-name strings.

The semantic reference is the predicate `XSet.Mem(x)`, which holds when
`(x in items) != complementary`. Every operation's contract is stated against
it. For example, `Intersect` has exactly the common members of its operands,
and `Complement` negates every membership.

Canonical form: in the Java code, an empty `items` result is always the shared
`EMPTY` or `FULL` instance. In Dafny a datatype value has no identity. The
canonical values are therefore the values `XSet({}, false)` and
`XSet({}, true)`, which `Empty()` and `Full()` return. Any value with no
items is one of these two by construction. The contracts pin down which one
comes out: an empty input gives `Empty()` from `Of` and `Full()` from
`ComplementOf`, `Complement` swaps the two, and a trivial operand of
`Intersect` short-circuits to `Empty()` or to the other operand.

Value equality compares the representation: flags and item sets. It matches
equality of denotations only over an infinite element universe.
`XSetLaws.EqualsIffSameMembers` proves the match for `string` elements.
`XSetLaws.FiniteUniverseNotCanonical` shows it fails over `bool`. The same
holds for `isFinite`: over `bool` a complementary value can have a finite
member set. The class documentation presents the type as a representation of
infinite sets.

Two behaviours of the code worth noting:

- The code rejects only a null collection or array. It does not reject null
  elements, so the model has no element rule.
- When the receiver is the empty value, `intersect` returns `this` rather than
  a fresh call to `empty()`. The model returns the receiver unchanged, which is
  the same value.

## Model

| member | source | states |
|---|---|---|
| XSets.Empty | src/main/java/com/spoledge/xset/XSet.java:45-54 | the canonical empty value is finite and has no member |
| XSets.Full | src/main/java/com/spoledge/xset/XSet.java:56-65 | the canonical full value is complementary and has every element as a member |
| XSets.Of | src/main/java/com/spoledge/xset/XSet.java:67-96 | the result is finite, its members are exactly the elements of the input, and an empty input gives the empty value |
| XSets.ComplementOf | src/main/java/com/spoledge/xset/XSet.java:98-123 | the result is complementary, its members are exactly the elements not in the input, and an empty input gives the full value |
| XSets.ToXSet | src/main/java/com/spoledge/xset/XSet.java:125-133 | the result keeps the requested flag and holds the input's distinct elements; an empty input gives the canonical empty or full value; a non-empty input never gives a trivial value |
| XSets.NonEmptyCollectionToSet | src/main/java/com/spoledge/xset/XSet.java:135-144 | both singleton branches, including one where duplicates collapse to one element, give a set with exactly the collection's elements |
| XSets.Elements | src/main/java/com/spoledge/xset/XSet.java:302-304 | copying a collection into a hash set keeps exactly its elements and never grows beyond the collection's length |
| XSets.XSet.IsFinite | src/main/java/com/spoledge/xset/XSet.java:167-174 | finite means not complementary; a finite value's members are its items, while a complementary value's members are everything outside its items |
| XSets.XSet.IsEmpty | src/main/java/com/spoledge/xset/XSet.java:176-185 | empty means finite and trivial, and an empty value has no members |
| XSets.XSet.IsFull | src/main/java/com/spoledge/xset/XSet.java:187-196 | full means complementary and trivial, and a full value has every element as a member |
| XSets.XSet.IsTrivial | src/main/java/com/spoledge/xset/XSet.java:198-207 | a trivial value has either no members or every element as a member; a non-trivial value has some item |
| XSets.XSet.Complement | src/main/java/com/spoledge/xset/XSet.java:209-223 | the complement keeps the items, flips the flag and negates every membership; empty maps to full and full to empty |
| XSets.XSet.Intersect | src/main/java/com/spoledge/xset/XSet.java:225-245 | the result's members are those of both operands; an empty operand gives the empty value; a full operand returns the other operand unchanged; for non-trivial operands the flag is the conjunction of the flags |
| XSets.XSet.IntersectItems | src/main/java/com/spoledge/xset/XSet.java:247-266 | read with the flag `cA && cB`, the four-case table's items denote exactly the common members, and they are drawn from the operands' items |
| XSets.SetIntersect | src/main/java/com/spoledge/xset/XSet.java:268-272 | an element is in the result iff it is in both sets |
| XSets.SetUnion | src/main/java/com/spoledge/xset/XSet.java:274-278 | an element is in the result iff it is in either set |
| XSets.SetMinus | src/main/java/com/spoledge/xset/XSet.java:280-284 | an element is in the result iff it is in the first set and not the second |
| XSets.CanonicalXSet | src/main/java/com/spoledge/xset/XSet.java:286-296 | the result denotes the given items under the given flag; empty items give a trivial value |
| XSets.XSet.Equals | src/main/java/com/spoledge/xset/XSet.java:311-324 | two values are equal iff they are the same datatype value, and equal values have the same members |
| XSetLaws.OfEqualIff | src/test/java/com/spoledge/xset/XSetTest.java:103-107 | two finite constructions are equal iff their inputs hold the same elements, whatever the order or duplicates |
| XSetLaws.ComplementOfEqualIff | src/test/java/com/spoledge/xset/XSetTest.java:108-110 | two complementary constructions are equal iff their inputs hold the same elements |
| XSetLaws.OfComplementOfDuality | src/test/java/com/spoledge/xset/XSetTest.java:49-59 | `Of(xs)` and `ComplementOf(xs)` are never equal, and each is the complement of the other |
| XSetLaws.DoubleComplement | src/test/java/com/spoledge/xset/XSetTest.java:57 | complementing twice gives back the original value |
| XSetLaws.IntersectCommutes | src/test/java/com/spoledge/xset/XSetTest.java:181-188 | intersection gives the same value in either operand order |
| XSetLaws.IntersectIdempotent | src/test/java/com/spoledge/xset/XSetTest.java:219-229 | a value intersected with itself is the value |
| XSetLaws.IntersectCaseTable | src/main/java/com/spoledge/xset/XSet.java:240-266 | for non-trivial operands the flag is `cA && cB` and the items are A∩B, A−B, B−A or A∪B by the case table |
| XSetLaws.EqualsIffSameMembers | src/main/java/com/spoledge/xset/XSet.java:312-324 | over strings, two values are equal iff they have the same members |
| XSetLaws.PredicatesMeaning | src/main/java/com/spoledge/xset/XSet.java:176-207 | over strings, finite iff some finite set holds exactly the members, empty iff no members, full iff every string is a member, and trivial iff empty or full |
| XSetLaws.FiniteUniverseNotCanonical | src/main/java/com/spoledge/xset/XSet.java:16-24 | over booleans, the finite value holding both booleans has the same members as the full value but is not equal to it, and the complement of `true` has the finite member set `{false}` yet is not finite |
| XSetLaws.IntersectFiniteWithComplement | src/test/java/com/spoledge/xset/XSetTest.java:214 | of(Mon, Tue) intersected with complementOf(Sun, Mon) is of(Tue) |
| XSetLaws.IntersectTwoComplements | src/test/java/com/spoledge/xset/XSetTest.java:220 | complementOf(Mon) intersected with complementOf(Sun) is complementOf(Sun, Mon) |
| XSetLaws.IntersectDisjointIsEmpty | src/test/java/com/spoledge/xset/XSetTest.java:249 | intersecting two disjoint finite values gives the canonical empty value |
| XSetLaws.ConstructionDayExamples | src/test/java/com/spoledge/xset/XSetTest.java:61-73 | duplicates collapse, order is ignored, and finite and complementary constructions differ |
| XSetLaws.EmptyConstructionComplements | src/test/java/com/spoledge/xset/XSetTest.java:239-265 | the complement of the empty finite construction is the full value, and the complement of the empty complementary construction is the empty value |

## Left out

- `hashCode` and `toString` (XSet.java:306-309, 326-329) depend on Java's hash-set hashing, its iteration order and string formatting. None of these is modelled.
- Reference identity (`this == other` in `equals`, and the tests' `sameInstance` checks) has no counterpart for Dafny values. Canonical empty and full are the values `XSet({}, false)` and `XSet({}, true)`.
- The `Objects.requireNonNull` checks on the collection, the array and the `other` operand are not modelled, because Dafny sequences and datatype values cannot be null.
- The representation wrappers `Collections.unmodifiableSet` and `Collections.singleton` are not modelled. Every such set is equal as a set to its contents, so it is a Dafny `set<E>`. The branch structure of `nonEmptyCollectionToSet` is kept.
- The varargs `of(T...)` and `complementOf(T...)` overloads are not modelled separately. After the null check they call the collection overloads, which `Of` and `ComplementOf` model on a sequence.
- `XSet.java` has no `union`, `subtract`, `contains`, `containsAll` or `containsAny`, so none is modelled.
- The unchecked generic casts of the shared `EMPTY` and `FULL` instances are not modelled. Neither is the thread-safety claim, which rests on immutability that Dafny values have by construction.
- XSets.XSet.IsEmpty, XSets.XSet.IsFull and XSets.XSet.IsTrivial: for an arbitrary element type, the contracts state only that the predicate implies the membership property. The converse needs an infinite universe, so it is proved for strings in `XSetLaws.PredicatesMeaning`.
- XSets.XSet.IsFinite: for an arbitrary element type, the contract states only that a finite value's members are its items and a complementary value's members are everything outside its items. That a complementary value's member set is not finite needs an infinite universe, so it is proved for strings in `XSetLaws.PredicatesMeaning`. Over `bool` it is false, as `XSetLaws.FiniteUniverseNotCanonical` shows.
- XSetLaws.EqualsIffSameMembers: stated for string elements only. Over a finite universe it is false, as `XSetLaws.FiniteUniverseNotCanonical` shows.
