/** Shared value types for the material-effects model: optional values,
    results, 3-component real vectors and 32-bit unsigned integers. */
module Base {

  datatype Option<+T> = None | Some(value: T)

  datatype Result<+T, +E> = Ok(value: T) | Err(error: E)

  /** A 3-component vector. Engine floats are modelled as reals. */
  datatype Vec3 = Vec3(x: real, y: real, z: real)

  const Zero3: Vec3 := Vec3(0.0, 0.0, 0.0)
  const One3: Vec3 := Vec3(1.0, 1.0, 1.0)
  /** The engine's Vector3::DOWN. */
  const Down3: Vec3 := Vec3(0.0, -1.0, 0.0)

  const TwoTo32: int := 0x1_0000_0000

  /** The C++ `unsigned` of the sources: 32 bits wide. */
  type U32 = x: int | 0 <= x < TwoTo32

  /** Unsigned 32-bit addition, which wraps modulo 2^32. */
  function AddU32(a: U32, b: U32): (r: U32)
    ensures a + b < TwoTo32 ==> r == a + b
    ensures a + b >= TwoTo32 ==> r == a + b - TwoTo32
  {
    (a + b) % TwoTo32
  }

  /** Multiplying by a positive number keeps order. */
  lemma MulMonotone(a: int, b: int, c: int)
    requires a <= b && 0 < c
    ensures a * c <= b * c
  {
    assert b * c - a * c == (b - a) * c;
  }
}
