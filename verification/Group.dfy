/** The curve groups.  They are cyclic of prime order P, so an element is modelled
    by its discrete logarithm to the generator; the pairing is then the product
    of logarithms. */
module Group {
  import opened ScalarField
  import opened PolynomialAlgebra
  import opened Interpolation

  type G1 = Scalar
  type G2 = Scalar
  type Gt = Scalar

  const G1_GENERATOR: G1 := Red(1)
  const G2_GENERATOR: G2 := Red(1)

  function Times(g: G1, k: Scalar): G1 { Mul(g, k) }

  function MultiExp(points: seq<G1>, scalars: seq<Scalar>): G1 {
    Red(Dot(points, scalars))
  }

  function Pairing(a: G1, b: G2): Gt { Mul(a, b) }
}
