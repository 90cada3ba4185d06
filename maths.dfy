/**
 * The floating-point library calls of audio/MFCC.kt (kotlin.math), which
 * the model does not interpret: every operation that uses one takes them
 * as a parameter, so its contracts hold whatever these functions compute.
 */
module Maths {
  datatype MathOps = MathOps(
    pi: real,
    cos: real -> real,
    sin: real -> real,
    sqrt: real -> real,
    ln: real -> real,
    log10: real -> real,
    pow: (real, real) -> real)
}
