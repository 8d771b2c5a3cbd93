/**
 A model of the tagged `struct value` of hashtable.c: a closed variant over
 nil, boolean, 64-bit signed integer, double and an opaque pointer.

 In C the kind tag and a union of payloads are two separate fields, and a
 typed getter asserts that the tag matches before it reads the union. Here
 the variant IS the tag, so a payload can only be read from the variant that
 carries it, and each getter's precondition is the C assertion.
 */
module Values {

  /** The C `int64_t`. */
  newtype int64 = x: int | -0x8000_0000_0000_0000 <= x < 0x8000_0000_0000_0000

  /** The `double` payload, kept as its IEEE 754 bit pattern: the table only
      stores and returns it, so no floating-point arithmetic is modelled. */
  datatype Real64 = Real64(bits: bv64)

  /** The `void *` payload: an address the value stores and returns but never
      dereferences, owns or frees. */
  datatype Handle = Handle(address: bv64)

  /** The C `enum value_kind`. */
  datatype ValueKind = NilKind | BooleanKind | IntegerKind | RealKind | CustomKind

  /** The C `struct value`; the field names follow the C union `as`. */
  datatype Value =
    | Nil
    | Boolean(asBoolean: bool)
    | Integer(asInteger: int64)
    | Real(asReal: Real64)
    | Custom(asCustom: Handle)

  /** `value_get_kind`: the tag names the variant. */
  function GetKind(v: Value): (r: ValueKind)
    ensures r == NilKind <==> v.Nil?
    ensures r == BooleanKind <==> v.Boolean?
    ensures r == IntegerKind <==> v.Integer?
    ensures r == RealKind <==> v.Real?
    ensures r == CustomKind <==> v.Custom?
  {
    match v
    case Nil => NilKind
    case Boolean(_) => BooleanKind
    case Integer(_) => IntegerKind
    case Real(_) => RealKind
    case Custom(_) => CustomKind
  }

  // Kind tests: each compares the tag with one kind.

  predicate IsNil(v: Value) { GetKind(v) == NilKind }

  predicate IsBoolean(v: Value) { GetKind(v) == BooleanKind }

  predicate IsInteger(v: Value) { GetKind(v) == IntegerKind }

  predicate IsReal(v: Value) { GetKind(v) == RealKind }

  predicate IsCustom(v: Value) { GetKind(v) == CustomKind }

  /** Every value has exactly one kind, and the kind test for it is the only
      one that holds. */
  lemma KindTestsPartition(v: Value)
    ensures IsNil(v) <==> v.Nil?
    ensures IsBoolean(v) <==> v.Boolean?
    ensures IsInteger(v) <==> v.Integer?
    ensures IsReal(v) <==> v.Real?
    ensures IsCustom(v) <==> v.Custom?
    ensures (if IsNil(v) then 1 else 0) + (if IsBoolean(v) then 1 else 0)
          + (if IsInteger(v) then 1 else 0) + (if IsReal(v) then 1 else 0)
          + (if IsCustom(v) then 1 else 0) == 1
  {
  }

  // Constructors: each one writes the kind it names and its payload.

  function MakeNil(): (r: Value)
    ensures IsNil(r)
  {
    Nil
  }

  function MakeBoolean(b: bool): (r: Value)
    ensures IsBoolean(r) && GetBoolean(r) == b
  {
    Boolean(b)
  }

  function MakeInteger(i: int64): (r: Value)
    ensures IsInteger(r) && GetInteger(r) == i
  {
    Integer(i)
  }

  function MakeReal(x: Real64): (r: Value)
    ensures IsReal(r) && GetReal(r) == x
  {
    Real(x)
  }

  function MakeCustom(p: Handle): (r: Value)
    ensures IsCustom(r) && GetCustom(r) == p
  {
    Custom(p)
  }

  // Setters: the C versions overwrite the kind and payload of an existing
  // value in place; here they return the overwritten value. Nothing of the
  // previous value survives (value_set_nil leaves stale union bytes behind,
  // but a nil value has no payload to read them through).

  function SetNil(v: Value): (r: Value)
    ensures IsNil(r) && r == MakeNil()
  {
    Nil
  }

  function SetBoolean(v: Value, b: bool): (r: Value)
    ensures IsBoolean(r) && GetBoolean(r) == b
  {
    Boolean(b)
  }

  function SetInteger(v: Value, i: int64): (r: Value)
    ensures IsInteger(r) && GetInteger(r) == i
  {
    Integer(i)
  }

  function SetReal(v: Value, x: Real64): (r: Value)
    ensures IsReal(r) && GetReal(r) == x
  {
    Real(x)
  }

  function SetCustom(v: Value, p: Handle): (r: Value)
    ensures IsCustom(r) && GetCustom(r) == p
  {
    Custom(p)
  }

  // Typed getters: the precondition is the C `assert` on the kind, and the
  // payload returned rebuilds the value it came from.

  function GetBoolean(v: Value): (b: bool)
    requires IsBoolean(v)
    ensures Boolean(b) == v
  {
    v.asBoolean
  }

  function GetInteger(v: Value): (i: int64)
    requires IsInteger(v)
    ensures Integer(i) == v
  {
    v.asInteger
  }

  function GetReal(v: Value): (x: Real64)
    requires IsReal(v)
    ensures Real(x) == v
  {
    v.asReal
  }

  function GetCustom(v: Value): (p: Handle)
    requires IsCustom(v)
    ensures Custom(p) == v
  {
    v.asCustom
  }

  /** A value built as a boolean does not meet the integer getter's
      precondition: reading it as an integer is the C assertion failure, not
      a coerced result. */
  lemma BooleanIsNotInteger(b: bool)
    ensures !IsInteger(MakeBoolean(b))
  {
  }
}
