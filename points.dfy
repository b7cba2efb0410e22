/** The `Point` value type of the snake engine: a pair of C# `int` coordinates
    with structural equality and the hash `(X << 2) ^ Y`, so that points can
    key a hash set. */
module Points {

  /** C#'s `int`: a 32-bit two's-complement integer. */
  newtype int32 = v: int | -0x8000_0000 <= v < 0x8000_0000

  const MinInt32: int := -0x8000_0000
  const MaxInt32: int := 0x7FFF_FFFF
  const Modulus: int := 0x1_0000_0000

  /** Unchecked C# integer arithmetic: the exact result reduced into the
      32-bit range modulo 2^32. */
  function Wrap(v: int): (r: int32)
    ensures (r as int - v) % Modulus == 0
    ensures MinInt32 <= v <= MaxInt32 ==> r as int == v
  {
    ((v - MinInt32) % Modulus + MinInt32) as int32
  }

  /** `a + k` evaluated in C#'s default unchecked context. */
  function Add(a: int32, k: int): (r: int32)
    ensures (r as int - (a as int + k)) % Modulus == 0
    ensures MinInt32 <= a as int + k <= MaxInt32 ==> r as int == a as int + k
  {
    Wrap(a as int + k)
  }

  /** A point on (or off) the board. `Point(x, y)` is the constructor
      `new Point(x, y)`; the fields are the properties `X` and `Y`. */
  datatype Point = Point(x: int32, y: int32)

  /** What `Equals(object)` may be handed: a null reference, a `Point`, or
      an object whose run-time type is not `Point`. */
  datatype Object = Null | PointObject(point: Point) | OtherObject

  /** `Point.Equals`: false for null and for other run-time types, otherwise
      coordinate-wise comparison. The result coincides with value equality,
      which is why a Dafny `set<Point>` has the membership of a
      `HashSet<Point>`. */
  function Equals(p: Point, obj: Object): (r: bool)
    ensures r <==> obj == PointObject(p)
    ensures obj.Null? || obj.OtherObject? ==> !r
  {
    match obj
    case PointObject(q) => p.x == q.x && p.y == q.y
    case _ => false
  }

  /** Two's-complement bit pattern of a C# `int`. */
  function ToBits(v: int32): bv32 {
    (if v < 0 then v as int + Modulus else v as int) as bv32
  }

  /** The C# `int` whose two's-complement bit pattern is `b`. */
  function FromBits(b: bv32): (v: int32)
    ensures b as int < 0x8000_0000 ==> v as int == b as int
    ensures b as int >= 0x8000_0000 ==> v as int == b as int - Modulus
  {
    if b as int < 0x8000_0000 then b as int as int32 else (b as int - Modulus) as int32
  }

  /** Reading a bit pattern as a C# `int` and writing it back is the identity. */
  lemma BitsRoundTrip(b: bv32)
    ensures ToBits(FromBits(b)) == b
  {
  }

  /** `Point.GetHashCode`: `(X << 2) ^ Y` on 32-bit words; the shift drops
      the two top bits of `X`. */
  function GetHashCode(p: Point): (h: int32)
    ensures ToBits(h) == (ToBits(p.x) << 2) ^ ToBits(p.y)
  {
    var b := (ToBits(p.x) << 2) ^ ToBits(p.y);
    BitsRoundTrip(b);
    FromBits(b)
  }

  /** The constructor stores its arguments as `X` and `Y`. */
  lemma ConstructorSetsFields(x: int32, y: int32)
    ensures Point(x, y).x == x && Point(x, y).y == y
  {
  }

  /** `Equals` on two points holds exactly when both coordinates match. */
  lemma EqualsIffSameCoordinates(p: Point, q: Point)
    ensures Equals(p, PointObject(q)) <==> p.x == q.x && p.y == q.y
  {
  }

  /** `Equals` rejects null and objects of another run-time type. */
  lemma EqualsRejectsNonPoints(p: Point)
    ensures !Equals(p, Null) && !Equals(p, OtherObject)
  {
  }

  /** `Equals` is an equivalence relation on points. */
  lemma EqualsIsEquivalence(p: Point, q: Point, s: Point)
    ensures Equals(p, PointObject(p))
    ensures Equals(p, PointObject(q)) <==> Equals(q, PointObject(p))
    ensures Equals(p, PointObject(q)) && Equals(q, PointObject(s)) ==> Equals(p, PointObject(s))
  {
  }

  /** Equal points hash equally: the contract a hash-set key must keep. */
  lemma HashRespectsEquals(p: Point, q: Point)
    requires Equals(p, PointObject(q))
    ensures GetHashCode(p) == GetHashCode(q)
  {
  }

  /** The hash depends on the coordinates alone. */
  lemma HashDependsOnCoordinatesOnly(p: Point, q: Point)
    requires p.x == q.x && p.y == q.y
    ensures GetHashCode(p) == GetHashCode(q)
  {
  }

  /** The hash is not injective, so the hash set must fall back on `Equals`:
      `Point(1, 0)` and `Point(0, 4)` both hash to 4 yet are not equal. */
  lemma HashCollides()
    ensures GetHashCode(Point(1, 0)) == GetHashCode(Point(0, 4)) == 4
    ensures !Equals(Point(1, 0), PointObject(Point(0, 4)))
  {
  }
}
