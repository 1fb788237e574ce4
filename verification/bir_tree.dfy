/** Ancestry of BIR elements (`isAncestorOf` in
    compiler/ir/bir/tree/src/org/jetbrains/kotlin/bir/BirElementBase.kt). Elements are identities;
    the model takes the parent links and each element's database as a given forest. */
module BirTree {
  import opened Wrappers

  type Id = nat

  /** `parent` maps an element to its parent element; an element missing from it has no parent
      element (no parent at all, or a parent that is not an element, which `as? BirElementBase`
      turns into null). `database` is the element's containing database, if any. */
  datatype Forest = Forest(parent: map<Id, Id>, database: Id -> Option<Id>)

  /** The parent links form no cycle: some ranking strictly decreases from child to parent. */
  ghost predicate Ranked(f: Forest, rank: Id -> nat) {
    forall x | x in f.parent :: rank(f.parent[x]) < rank(x)
  }

  /** The chain of parents above `x`, nearest first. */
  ghost function Ancestors(f: Forest, x: Id, rank: Id -> nat): seq<Id>
    requires Ranked(f, rank)
    decreases rank(x)
  {
    if x in f.parent then [f.parent[x]] + Ancestors(f, f.parent[x], rank) else []
  }

  /** `isAncestorOf`: false for elements of different databases (both without one counts as the
      same); otherwise whether `a` is met walking up the parents of `other`. */
  method IsAncestorOf(f: Forest, a: Id, other: Id, ghost rank: Id -> nat) returns (r: bool)
    requires Ranked(f, rank)
    ensures r <==> f.database(a) == f.database(other) && a in Ancestors(f, other, rank)
  {
    if f.database(a) != f.database(other) {
      return false;
    }
    var n := other;
    while n in f.parent
      invariant a in Ancestors(f, other, rank) <==> a in Ancestors(f, n, rank)
      decreases rank(n)
    {
      n := f.parent[n];
      if n == a {
        return true;
      }
    }
    return false;
  }

  /** Every ancestor ranks strictly below its descendant. */
  lemma {:induction false} AncestorsRankLower(f: Forest, x: Id, rank: Id -> nat)
    requires Ranked(f, rank)
    ensures forall a | a in Ancestors(f, x, rank) :: rank(a) < rank(x)
    decreases rank(x)
  {
    if x in f.parent {
      AncestorsRankLower(f, f.parent[x], rank);
    }
  }

  /** No element is its own ancestor, and ancestry never runs both ways. */
  lemma AncestryIsStrict(f: Forest, a: Id, b: Id, rank: Id -> nat)
    requires Ranked(f, rank)
    ensures a !in Ancestors(f, a, rank)
    ensures a in Ancestors(f, b, rank) ==> b !in Ancestors(f, a, rank)
  {
    AncestorsRankLower(f, a, rank);
    AncestorsRankLower(f, b, rank);
  }

  /** An ancestor of an ancestor is an ancestor. */
  lemma {:induction false} AncestryTransitive(f: Forest, a: Id, b: Id, c: Id, rank: Id -> nat)
    requires Ranked(f, rank)
    requires b in Ancestors(f, c, rank) && a in Ancestors(f, b, rank)
    ensures a in Ancestors(f, c, rank)
    decreases rank(c)
  {
    var p := f.parent[c];
    if b != p {
      AncestryTransitive(f, a, b, p, rank);
    }
  }

  /** The parent of an element is among its ancestors. */
  lemma ParentIsAncestor(f: Forest, x: Id, rank: Id -> nat)
    requires Ranked(f, rank) && x in f.parent
    ensures f.parent[x] in Ancestors(f, x, rank)
  {
  }
}
