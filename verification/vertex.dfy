/**
 A graph vertex: a wrapped value and the set of its neighbours.

 The neighbour set is a java.util.HashSet of vertex objects. Vertex overrides
 `equals` (by value) but not `hashCode`, so, barring a collision of identity hash
 codes, the set finds an element only when it is the very same object. The model
 ignores such collisions and therefore names a vertex object by a `Ref`
 that carries its identity next to its value; two refs with different ids are
 different objects even when their values agree.
 */
module Vertices {

  /** A reference to a vertex object: its identity and the value it wraps. */
  datatype Ref<T> = Ref(id: nat, value: T)

  /** The state of one vertex object. */
  datatype Vertex<T(==)> = Vertex(value: T, neighbors: set<Ref<T>>)

  /** What `equals` can be handed: another vertex or an object of some other class. */
  datatype Object<T> = VertexObject(ref: Ref<T>) | NonVertex

  /** The constructor: the given value and no neighbours. */
  function New<T(==)>(value: T): Vertex<T> {
    Vertex(value, {})
  }

  function GetValue<T(==)>(v: Vertex<T>): T {
    v.value
  }

  function GetNeighbors<T(==)>(v: Vertex<T>): set<Ref<T>> {
    v.neighbors
  }

  /** addNeighbor as written: the HashSet lookup succeeds only for the same object. */
  function AddNeighbor<T(==)>(v: Vertex<T>, n: Ref<T>): (r: Vertex<T>)
    ensures GetValue(r) == GetValue(v)
    ensures GetNeighbors(r) == GetNeighbors(v) + {n}
    ensures n in GetNeighbors(v) ==> r == v
  {
    if n in v.neighbors then v else v.(neighbors := v.neighbors + {n})
  }

  /** equals, with `self` the receiver: two vertices are equal when their values are. */
  predicate Equals<T(==)>(self: Ref<T>, obj: Object<T>) {
    match obj
    case VertexObject(other) => self.value == other.value
    case NonVertex => false
  }

  /** equals is an equivalence on vertices and never holds for another class. */
  lemma EqualsIsValueEquivalence<T>(a: Ref<T>, b: Ref<T>, c: Ref<T>)
    ensures Equals(a, VertexObject(a))
    ensures Equals(a, VertexObject(b)) <==> Equals(b, VertexObject(a))
    ensures Equals(a, VertexObject(b)) && Equals(b, VertexObject(c)) ==> Equals(a, VertexObject(c))
    ensures Equals(a, VertexObject(b)) <==> a.value == b.value
    ensures !Equals(a, NonVertex)
  {
  }

  /** The neighbours added one after another, starting from `v`. */
  function AddAll<T(==)>(v: Vertex<T>, ns: seq<Ref<T>>): Vertex<T>
    decreases |ns|
  {
    if ns == [] then v else AddNeighbor(AddAll(v, ns[..|ns| - 1]), ns[|ns| - 1])
  }

  /** getValue returns the constructor's value whatever neighbours were added since. */
  lemma {:induction false} ValueNeverChanges<T>(x: T, ns: seq<Ref<T>>)
    ensures GetValue(AddAll(New(x), ns)) == x
    decreases |ns|
  {
    if ns != [] {
      ValueNeverChanges(x, ns[..|ns| - 1]);
    }
  }

  /** A new vertex that is then given some neighbours holds exactly those neighbours. */
  lemma {:induction false} NeighborsAreTheAdded<T>(x: T, ns: seq<Ref<T>>)
    ensures GetNeighbors(AddAll(New(x), ns)) == set n | n in ns
    decreases |ns|
  {
    if ns != [] {
      var init := ns[..|ns| - 1];
      NeighborsAreTheAdded(x, init);
      assert ns == init + [ns[|ns| - 1]];
    }
  }

  /** No two neighbours are equal under `equals`. */
  predicate ValueDistinct<T(==)>(ns: set<Ref<T>>) {
    forall a, b | a in ns && b in ns && Equals(a, VertexObject(b)) :: a == b
  }

  /** The values wrapped by a set of neighbours. */
  function Values<T(==)>(ns: set<Ref<T>>): set<T> {
    set n | n in ns :: n.value
  }

  /** Two different vertex objects that wrap the same value are both kept as
      neighbours, although `equals` calls them equal: the set is not deduplicated
      by value. */
  lemma AddNeighborKeepsEqualDuplicates()
    ensures var a, b := Ref(0, 7), Ref(1, 7);
            var v := AddNeighbor(AddNeighbor(New(7), a), b);
            && Equals(a, VertexObject(b))
            && GetNeighbors(v) == {a, b}
            && |GetNeighbors(v)| == 2
            && !ValueDistinct(GetNeighbors(v))
  {
    var a, b := Ref(0, 7), Ref(1, 7);
    assert a != b;
  }

  /** Some member of the set is equal to `n` under `equals`. */
  predicate HasEqual<T(==)>(ns: set<Ref<T>>, n: Ref<T>) {
    exists m :: m in ns && Equals(m, VertexObject(n))
  }

  /** addNeighbor as intended: a neighbour equal by value to one already present is not added. */
  function AddNeighborByValue<T(==)>(v: Vertex<T>, n: Ref<T>): (r: Vertex<T>)
    ensures GetValue(r) == GetValue(v)
    ensures HasEqual(GetNeighbors(v), n) ==> r == v
    ensures !HasEqual(GetNeighbors(v), n) ==> GetNeighbors(r) == GetNeighbors(v) + {n}
    ensures HasEqual(GetNeighbors(r), n)
    ensures GetNeighbors(v) <= GetNeighbors(r) <= GetNeighbors(v) + {n}
    ensures Values(GetNeighbors(r)) == Values(GetNeighbors(v)) + {n.value}
    ensures ValueDistinct(GetNeighbors(v)) ==> ValueDistinct(GetNeighbors(r))
  {
    if HasEqual(v.neighbors, n) then v
    else assert Equals(n, VertexObject(n)); v.(neighbors := v.neighbors + {n})
  }

}
