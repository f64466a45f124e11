/** The matrices the multiplication engine applies, and the two builders
    that fill them row by row with a truncation rule: rows beyond the
    degree range of the data are the zero vector, never an error. */
module Matrices {

  /** A linear map stored by its rows (matrix<ring> in the source). Rows are
      produced by a row oracle that `Construct` evaluates once per index. */
  class Matrix<R> {
    var rows: seq<R>

    constructor ()
      ensures rows == []
    {
      rows := [];
    }

    /** clear(): back to the empty matrix. */
    method Clear()
      modifies this
      ensures rows == []
    {
      rows := [];
    }

    /** construct(rank, rowOf): evaluates rowOf at 0, 1, ..., rank - 1 and
        stores the results as the rows. */
    method Construct(rank: nat, rowOf: int --> R)
      requires forall i :: 0 <= i < rank ==> rowOf.requires(i)
      modifies this
      ensures |rows| == rank
      ensures forall i :: 0 <= i < rank ==> rows[i] == rowOf(i)
    {
      var built: seq<R> := [];
      for i := 0 to rank
        invariant |built| == i
        invariant forall j :: 0 <= j < i ==> built[j] == rowOf(j)
      {
        built := built + [rowOf(i)];
      }
      rows := built;
    }
  }

  /** The monomial index of the BP operations: every monomial in degree
      order, and for each degree the index bound of the monomials that fit
      below it. */
  datatype MonIndex<M> = MonIndex(monArray: seq<M>, ranksBelow: seq<int>, maxDegree: int)

  /** The row oracle of make_eta_R_multiplier: past the bound for the
      degree the row is zero, otherwise it is the vector of the primitive
      etaR(v^e)·x for the i-th monomial v^e (computed outside the model). */
  function EtaRRow<M, A, R>(index: MonIndex<M>, deg: int, x: A, primitive: (M, A) -> R, zero: R, i: int): R
    requires 0 <= index.maxDegree - deg < |index.ranksBelow|
    requires 0 <= i < |index.monArray|
  {
    if i > index.ranksBelow[index.maxDegree - deg] then zero else primitive(index.monArray[i], x)
  }

  /** make_eta_R_multiplier: one row per monomial; the rows whose index is
      STRICTLY above ranksBelow[maxDegree - deg] are zero, every other row
      is the primitive of its monomial. */
  method MakeEtaRMultiplier<M, A, R>(index: MonIndex<M>, x: A, result: Matrix<R>, deg: int, primitive: (M, A) -> R, zero: R)
    requires 0 <= index.maxDegree - deg < |index.ranksBelow|
    modifies result
    ensures |result.rows| == |index.monArray|
    ensures forall i :: 0 <= i < |index.monArray| && i > index.ranksBelow[index.maxDegree - deg] ==>
      result.rows[i] == zero
    ensures forall i :: 0 <= i < |index.monArray| && i <= index.ranksBelow[index.maxDegree - deg] ==>
      result.rows[i] == primitive(index.monArray[i], x)
  {
    var n := |index.monArray|;
    result.Construct(n, i requires 0 <= i < n => EtaRRow(index, deg, x, primitive, zero, i));
  }

  /** What the row oracle of multily_matrix reads from the resolution: the
      rank of a free comodule F and the degree of its i-th generator, and
      the product row prim.expand(resMap.maps_to(F.multiply_using_table(i, multiplier)))
      for the fixed multiplier. */
  datatype Resolution<!G, !P, !Mp, R> = Resolution(
    rank: G -> nat,
    degree: (G, int) -> int,
    productRow: (G, Mp, P, int) -> R,
    zero: R)

  /** The rows multily_matrix stores: one per generator of F, zero for a
      generator above maxDeg. */
  function MultiplyRows<G, P, Mp, R>(maxDeg: int, res: Resolution<G, P, Mp, R>, resMap: Mp, gen: G, prim: P): (r: seq<R>)
    ensures |r| == res.rank(gen)
  {
    seq(res.rank(gen), i => if res.degree(gen, i) > maxDeg then res.zero else res.productRow(gen, resMap, prim, i))
  }

  /** multily_matrix: the row of generator i is zero exactly when its
      degree exceeds maxDeg and is the product row otherwise. */
  method MultiplyMatrix<G, P, Mp, R>(maxDeg: int, res: Resolution<G, P, Mp, R>, resMap: Mp, gen: G, prim: P, result: Matrix<R>)
    modifies result
    ensures |result.rows| == res.rank(gen)
    ensures forall i :: 0 <= i < res.rank(gen) && res.degree(gen, i) > maxDeg ==> result.rows[i] == res.zero
    ensures forall i :: 0 <= i < res.rank(gen) && res.degree(gen, i) <= maxDeg ==>
      result.rows[i] == res.productRow(gen, resMap, prim, i)
    ensures result.rows == MultiplyRows(maxDeg, res, resMap, gen, prim)
  {
    result.Construct(res.rank(gen), i => if res.degree(gen, i) > maxDeg then res.zero else res.productRow(gen, resMap, prim, i));
  }
}
