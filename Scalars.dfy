/**
 * The scalar types of the core over exact reals: a complex number is the
 * pair of its real and imaginary parts.
 */
module Scalars {

  datatype Complex = Complex(re: real, im: real)

  function AbsReal(x: real): (r: real)
    ensures r >= 0.0 && (r == x || r == -x)
  {
    if x < 0.0 then -x else x
  }

  /** The complex conjugate. */
  function Conj(z: Complex): (r: Complex)
    ensures r.re == z.re && r.im == -z.im
  {
    Complex(z.re, -z.im)
  }

  /** Conjugation is an involution. */
  lemma ConjInvolutive(z: Complex)
    ensures Conj(Conj(z)) == z
  {
  }

  /** Elemental's OneAbs: the one-norm |re| + |im| used to compare shift magnitudes. */
  function OneAbs(z: Complex): (r: real)
    ensures r >= 0.0
  {
    AbsReal(z.re) + AbsReal(z.im)
  }
}
