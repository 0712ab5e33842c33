/** The `Proton` record and the comparison operators the Python class overloads.

    Equality (`==`, `!=`, and therefore `in` on a list) looks only at the version
    string.  `>` compares publish dates, and `<` is defined as "not `>`", so it is
    really "published at the same time or earlier": `a < a` holds. */
module ProtonRecord {

  datatype Proton = Proton(version: string, installed: bool, publishedAt: int)

  /** `a == b` */
  predicate Eq(a: Proton, b: Proton) {
    a.version == b.version
  }

  /** `a != b` */
  predicate Ne(a: Proton, b: Proton) {
    !Eq(a, b)
  }

  /** `a > b` */
  predicate Gt(a: Proton, b: Proton) {
    a.publishedAt > b.publishedAt
  }

  /** `a < b`, written in the source as `not a > b`. */
  predicate Lt(a: Proton, b: Proton) {
    !Gt(a, b)
  }

  /** Python's `x in xs` on a list of records: some element compares equal. */
  predicate Contains(xs: seq<Proton>, x: Proton) {
    exists i :: 0 <= i < |xs| && Eq(xs[i], x)
  }

  /** Two records are equal exactly when their versions are, whatever their
      installed flags and publish dates; `!=` is the exact negation. */
  lemma EqIsVersionEquality(a: Proton, b: Proton)
    ensures Eq(a, b) <==> a.version == b.version
    ensures Ne(a, b) <==> a.version != b.version
    ensures forall i1: bool, i2: bool, p1: int, p2: int ::
      Eq(Proton(a.version, i1, p1), Proton(b.version, i2, p2)) == Eq(a, b)
  {
  }

  /** `==` is an equivalence on records: reflexive, symmetric and transitive. */
  lemma EqIsEquivalence(a: Proton, b: Proton, c: Proton)
    ensures Eq(a, a)
    ensures Eq(a, b) ==> Eq(b, a)
    ensures Eq(a, b) && Eq(b, c) ==> Eq(a, c)
  {
  }

  /** `x in xs` cannot tell equal records apart: a release record finds the
      installed record of the same version, whatever their flags and dates. */
  lemma ContainsRespectsEq(xs: seq<Proton>, x: Proton, y: Proton)
    requires Eq(x, y)
    ensures Contains(xs, x) <==> Contains(xs, y)
  {
    if Contains(xs, x) {
      var i :| 0 <= i < |xs| && Eq(xs[i], x);
      assert Eq(xs[i], y);
    }
    if Contains(xs, y) {
      var i :| 0 <= i < |xs| && Eq(xs[i], y);
      assert Eq(xs[i], x);
    }
  }

  /** `<` is the complement of `>`, hence the non-strict order on publish dates:
      reflexive and total, so every pair of records is comparable both ways round
      when their dates tie. */
  lemma LtIsNotGreater(a: Proton, b: Proton)
    ensures Lt(a, b) <==> !Gt(a, b)
    ensures Lt(a, b) <==> a.publishedAt <= b.publishedAt
    ensures Lt(a, a)
    ensures Lt(a, b) || Lt(b, a)
    ensures Lt(a, b) && Lt(b, a) <==> a.publishedAt == b.publishedAt
  {
  }

  /** `<` is transitive, so together with totality it is a total preorder: the
      relation a sort needs to produce an order on publish dates. */
  lemma LtTransitive(a: Proton, b: Proton, c: Proton)
    requires Lt(a, b) && Lt(b, c)
    ensures Lt(a, c)
  {
  }
}
