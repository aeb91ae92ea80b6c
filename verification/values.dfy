/** PHP values as the traits see them, and the runtime rules the traits lean
    on: array-key normalisation, `(string)` of a key, truthiness, `is_scalar`,
    `gettype` and strict identity (`===`). */
module Values {
  import opened Numerals

  datatype Option<+T> = None | Some(value: T)

  /** An array key: PHP keys are integers or strings. */
  datatype Key = IntKey(i: Int64) | StrKey(s: string)

  /** A PHP value. Floats are kept as their IEEE-754 bit pattern; `Object`
      stands for any object, identified by its handle. An array is the ordered
      sequence of its entries. */
  datatype Value =
    | Null
    | Bool(b: bool)
    | Int(n: Int64)
    | Float(bits: bv64)
    | Str(s: string)
    | Arr(entries: seq<(Key, Value)>)
    | Object(handle: nat)

  /** The exceptions the modelled code raises (or lets the runtime raise). */
  datatype Error =
    | TypeError
    | InvalidArgument(message: string)
    | Business(message: string, code: int)
    | NextElementOccupied

  datatype Result<+T> = Ok(value: T) | Err(error: Error)

  /** A key in the form PHP stores it: no string key spells an integer key. */
  predicate IsNormal(k: Key)
  {
    k.StrKey? ==> !IsIntegerKey(k.s)
  }

  /** The key PHP actually uses for `$a[$k]`: a string such as `"12"` or
      `"-3"` becomes the integer key; `"012"`, `"-0"` or `"1.5"` stay strings. */
  function Normalize(k: Key): (r: Key)
    ensures IsNormal(r)
    ensures IsNormal(k) ==> r == k
    ensures k.IntKey? ==> r == k
    ensures k.StrKey? && IsIntegerKey(k.s) ==> r.IntKey? && DecimalText(r.i) == k.s
  {
    match k
    case IntKey(_) => k
    case StrKey(s) =>
      if IsIntegerKey(s) then
        IntegerKeyIsDecimalText(s);
        IntKey(DecimalValue(s))
      else k
  }

  /** `(string)$k` for a key. */
  function KeyText(k: Key): string
  {
    match k
    case IntKey(i) => DecimalText(i)
    case StrKey(s) => s
  }

  /** Writing a key as text and reading the text back as a key loses nothing. */
  lemma NormalizeKeyText(k: Key)
    ensures Normalize(StrKey(KeyText(k))) == Normalize(k)
  {
    if k.IntKey? {
      DecimalTextIsIntegerKey(k.i);
    }
  }

  predicate IsNaN(bits: bv64)
  {
    bits & 0x7FF0_0000_0000_0000 == 0x7FF0_0000_0000_0000 && bits & 0x000F_FFFF_FFFF_FFFF != 0
  }

  predicate IsZero(bits: bv64)
  {
    bits & 0x7FFF_FFFF_FFFF_FFFF == 0
  }

  /** `===` on floats: numeric equality, so `0.0 === -0.0` and `NAN !== NAN`. */
  predicate FloatIdentical(x: bv64, y: bv64)
  {
    !IsNaN(x) && !IsNaN(y) && (x == y || (IsZero(x) && IsZero(y)))
  }

  /** `$a === $b`: same type and value; arrays must hold identical entries
      under the same keys in the same order; objects must be the same handle. */
  predicate Identical(a: Value, b: Value)
    decreases a
  {
    match (a, b)
    case (Float(x), Float(y)) => FloatIdentical(x, y)
    case (Arr(ea), Arr(eb)) =>
      && |ea| == |eb|
      && forall i :: 0 <= i < |ea| ==> ea[i].0 == eb[i].0 && Identical(ea[i].1, eb[i].1)
    case _ => a == b && !a.Float? && !a.Arr?
  }

  /** A value without floats is identical to itself. */
  predicate FloatFree(v: Value)
    decreases v
  {
    match v
    case Float(_) => false
    case Arr(e) => forall i :: 0 <= i < |e| ==> FloatFree(e[i].1)
    case _ => true
  }

  lemma {:induction false} IdenticalReflexive(v: Value)
    requires FloatFree(v)
    ensures Identical(v, v)
    decreases v
  {
    if v.Arr? {
      forall i | 0 <= i < |v.entries|
        ensures Identical(v.entries[i].1, v.entries[i].1)
      {
        IdenticalReflexive(v.entries[i].1);
      }
    }
  }

  /** `$x === $y` where both sides hold one stored value, as when `$x` was
      assigned from `$y`. PHP answers true at once for the same array, string
      or object, before looking at any element, so only a NaN float differs
      from itself. */
  predicate SameIdentical(v: Value)
  {
    !(v.Float? && IsNaN(v.bits))
  }

  /** A value identical to itself element by element is identical to itself
      when shared; for non-arrays the two readings agree. */
  lemma SameIdenticalOfIdentical(v: Value)
    ensures Identical(v, v) ==> SameIdentical(v)
    ensures !v.Arr? ==> (SameIdentical(v) <==> Identical(v, v))
  {
  }

  /** A shared array holding a NaN is identical to itself, although an equal
      copy of it is not. */
  lemma SharedNaNArray(x: bv64)
    requires IsNaN(x)
    ensures SameIdentical(Arr([(IntKey(0), Float(x))]))
    ensures !Identical(Arr([(IntKey(0), Float(x))]), Arr([(IntKey(0), Float(x))]))
  {
    var e := [(IntKey(0), Float(x))];
    assert !Identical(e[0].1, e[0].1);
  }

  /** `(bool)$v`. */
  predicate Truthy(v: Value)
  {
    match v
    case Null => false
    case Bool(b) => b
    case Int(n) => n != 0
    case Float(bits) => !IsZero(bits)
    case Str(s) => s != "" && s != "0"
    case Arr(e) => |e| > 0
    case Object(_) => true
  }

  /** `is_scalar($v)`. */
  predicate IsScalar(v: Value)
  {
    v.Bool? || v.Int? || v.Float? || v.Str?
  }

  /** `gettype($v)`. */
  function TypeName(v: Value): string
  {
    match v
    case Null => "NULL"
    case Bool(_) => "boolean"
    case Int(_) => "integer"
    case Float(_) => "double"
    case Str(_) => "string"
    case Arr(_) => "array"
    case Object(_) => "object"
  }
}
