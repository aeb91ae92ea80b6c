/** Request-parameter extraction (`doMore` and `typeCast` of the `HasRequest`
    trait): a list of parameter specs is resolved against a source array into
    a result array, with optional `/type` casts. */
module Request {
  import opened Numerals
  import opened Values
  import opened Arrays
  import opened Text

  /** A parameter spec: a plain name (default `null`) or `[name, default]`. */
  datatype Spec = Spec(name: string, default: Value)

  /** The conversions PHP performs that the model does not spell out: `(int)`,
      `(float)`, `(string)` of a float, and `(array)` of an object. */
  datatype Runtime = Runtime(
    toInt: Value -> Int64,
    toFloat: Value -> bv64,
    floatText: bv64 -> string,
    objectArray: nat -> Entries)

  /** `$a ?? $b` on an array read: the value when present and not `null`. */
  function Coalesce(v: Option<Value>, default: Value): (r: Value)
    ensures v.Some? && !v.value.Null? ==> r == v.value
    ensures v.None? || v.value.Null? ==> r == default
  {
    match v
    case Some(x) => if x.Null? then default else x
    case None => default
  }

  /** How a spec entry of `$params` is read: a string is a name with a `null`
      default; an array gives its name at `[0]` and its default at `[1] ?? null`.
      Other entries (non-string names) are not modelled. */
  function ReadSpec(v: Value): (r: Option<Spec>)
    ensures v.Str? ==> r == Some(Spec(v.s, Null))
    ensures v.Arr? && Lookup(v.entries, IntKey(0)).Some? && Lookup(v.entries, IntKey(0)).value.Str? ==>
      r.Some? && r.value.name == Lookup(v.entries, IntKey(0)).value.s
    ensures v.Arr? && r.Some? ==>
      (Lookup(v.entries, IntKey(1)).Some? && !Lookup(v.entries, IntKey(1)).value.Null? ==>
        r.value.default == Lookup(v.entries, IntKey(1)).value)
    ensures v.Arr? && r.Some? && (Lookup(v.entries, IntKey(1)).None? || Lookup(v.entries, IntKey(1)).value.Null?) ==>
      r.value.default == Null
    ensures r.Some? ==> v.Str? || v.Arr?
  {
    match v
    case Str(s) => Some(Spec(s, Null))
    case Arr(e) =>
      (match Lookup(e, IntKey(0))
       case Some(Str(n)) => Some(Spec(n, Coalesce(Lookup(e, IntKey(1)), Null)))
       case _ => None)
    case _ => None
  }

  /** The specs of the whole `$params` array, entry by entry under the entry's
      own key; `None` when some entry is one the model does not read. */
  function ReadSpecs(params: Entries): (r: Option<seq<(Key, Spec)>>)
    ensures r.Some? <==> forall i :: 0 <= i < |params| ==> ReadSpec(params[i].1).Some?
    ensures r.Some? ==> |r.value| == |params|
    ensures r.Some? ==> forall i :: 0 <= i < |params| ==> r.value[i] == (params[i].0, ReadSpec(params[i].1).value)
    decreases |params|
  {
    if |params| == 0 then Some([])
    else
      assert forall i :: 1 <= i < |params| ==> params[i] == params[1..][i - 1];
      match (ReadSpec(params[0].1), ReadSpecs(params[1..]))
      case (Some(x), Some(rest)) => Some([(params[0].0, x)] + rest)
      case _ => None
  }

  /** Splitting a `name/type` spec name. The split happens only when the first
      `/` is past position 0, because `strpos` answering 0 is falsy. The name is
      the text before the first `/`, the type runs from there to the second
      `/` or the end, and anything after a second `/` is dropped. */
  function ParseName(name: string): (r: (string, Option<string>))
    ensures r.1.Some? <==> '/' in name && FirstIndex(name, '/') > 0
    ensures r.1.None? ==> r.0 == name
    ensures r.1.Some? ==> |r.0| > 0 && '/' !in r.0 && '/' !in r.1.value
    ensures r.1.Some? ==> r.0 + "/" + r.1.value <= name
    ensures r.1.Some? ==> |r.0| + 1 + |r.1.value| == |name| || name[|r.0| + 1 + |r.1.value|] == '/'
  {
    if '/' in name && FirstIndex(name, '/') > 0 then
      var parts := Split(name, '/');
      SplitSecond(name, '/');
      SplitSecondEnds(name, '/');
      (parts[0], Some(parts[1]))
    else
      (name, None)
  }

  /** `(array)$data`. */
  function ArrayCast(rt: Runtime, v: Value): (r: Entries)
    ensures v.Arr? ==> r == v.entries
    ensures v.Null? ==> r == []
    ensures IsScalar(v) ==> r == [(IntKey(0), v)]
    ensures IsScalar(v) ==> Lookup(r, IntKey(0)) == Some(v) && |r| == 1
  {
    match v
    case Null => []
    case Arr(e) => e
    case Object(h) => rt.objectArray(h)
    case _ => [(IntKey(0), v)]
  }

  /** `(string)$data` for a scalar. */
  function ScalarText(rt: Runtime, v: Value): (r: string)
    requires IsScalar(v)
    ensures v.Str? ==> r == v.s
    ensures v.Bool? ==> (r == "1" <==> v.b) && (r == "" <==> !v.b)
    ensures v.Int? ==> IsIntegerKey(r) && DecimalValue(r) == v.n
  {
    match v
    case Bool(b) => if b then "1" else ""
    case Int(n) =>
      DecimalTextIsIntegerKey(n);
      DecimalText(n)
    case Float(bits) => rt.floatText(bits)
    case Str(s) => s
  }

  /** The message of the exception `typeCast` raises for `'s'` on a non-scalar. */
  function CastError(v: Value): string
  {
    "variable type error：" + TypeName(v)
  }

  /** `typeCast($data, $type)`: the letter is compared after `strtolower`;
      `'a'`, `'d'`, `'f'`, `'b'` always convert, `'s'` converts scalars and
      refuses anything else, and any other letter leaves the value alone. */
  function TypeCast(rt: Runtime, data: Value, t: string): (r: Result<Value>)
    ensures r.Err? <==> Lower(t) == "s" && !IsScalar(data)
    ensures r.Err? ==> r.error == InvalidArgument(CastError(data))
    ensures Lower(t) == "a" ==> r.Ok? && r.value.Arr?
    ensures Lower(t) == "a" && data.Arr? ==> r == Ok(data)
    ensures Lower(t) == "a" && data.Null? ==> r == Ok(Arr([]))
    ensures Lower(t) == "a" && IsScalar(data) ==> r == Ok(Arr([(IntKey(0), data)]))
    ensures Lower(t) == "d" ==> r.Ok? && r.value.Int?
    ensures Lower(t) == "f" ==> r.Ok? && r.value.Float?
    ensures Lower(t) == "b" ==> r.Ok? && r.value.Bool? && (r.value.b <==> Truthy(data))
    ensures Lower(t) == "s" && IsScalar(data) ==> r.Ok? && r.value.Str?
    ensures Lower(t) == "s" && data.Str? ==> r == Ok(data)
    ensures Lower(t) !in {"a", "d", "f", "b", "s"} ==> r == Ok(data)
  {
    var l := Lower(t);
    if l == "a" then Ok(Arr(ArrayCast(rt, data)))
    else if l == "d" then Ok(Int(rt.toInt(data)))
    else if l == "f" then Ok(Float(rt.toFloat(data)))
    else if l == "b" then Ok(Bool(Truthy(data)))
    else if l == "s" then
      if IsScalar(data) then Ok(Str(ScalarText(rt, data))) else Err(InvalidArgument(CastError(data)))
    else Ok(data)
  }

  /** The type letter is case-insensitive: `A`, `B`, `S` act as `a`, `b`, `s`. */
  lemma TypeCastIgnoresCase(rt: Runtime, data: Value, t: string)
    ensures TypeCast(rt, data, t) == TypeCast(rt, data, Lower(t))
  {
    LowerIdempotent(t);
  }

  /** One spec resolved against the source: its parsed name and its value. */
  function Param(rt: Runtime, source: Entries, spec: Spec): (r: Result<(string, Value)>)
    ensures r.Ok? ==> r.value.0 == ParseName(spec.name).0
    ensures r.Err? ==> ParseName(spec.name).1.Some? && r.error.InvalidArgument?
  {
    var (name, t) := ParseName(spec.name);
    var found := Lookup(source, StrKey(name));
    var data := Coalesce(found, spec.default);
    var same := if found.None? || found.value.Null? then SameIdentical(spec.default) else Identical(data, spec.default);
    if t.Some? && !same then
      match TypeCast(rt, data, t.value)
      case Ok(x) => Ok((name, x))
      case Err(e) => Err(e)
    else Ok((name, data))
  }

  /** A parameter absent from the source (or `null` there) yields its default
      uncast, whatever its type letter, since `$data` then holds the default
      itself. Only a NaN float default fails `===` against itself and is cast. */
  lemma MissingParamYieldsDefault(rt: Runtime, source: Entries, spec: Spec)
    requires var name := ParseName(spec.name).0;
      Lookup(source, StrKey(name)).None? || Lookup(source, StrKey(name)) == Some(Null)
    ensures ParseName(spec.name).1.None? || SameIdentical(spec.default) ==>
      Param(rt, source, spec) == Ok((ParseName(spec.name).0, spec.default))
    ensures ParseName(spec.name).1.Some? && !SameIdentical(spec.default) ==>
      match TypeCast(rt, spec.default, ParseName(spec.name).1.value)
      case Ok(y) => Param(rt, source, spec) == Ok((ParseName(spec.name).0, y))
      case Err(e) => Param(rt, source, spec) == Err(e)
  {
  }

  /** Passing the default itself in the source skips the cast, as long as the
      value holds no float. */
  lemma PresentDefaultUncast(rt: Runtime, source: Entries, spec: Spec)
    requires Lookup(source, StrKey(ParseName(spec.name).0)) == Some(spec.default)
    requires FloatFree(spec.default)
    ensures Param(rt, source, spec) == Ok((ParseName(spec.name).0, spec.default))
  {
    IdenticalReflexive(spec.default);
  }

  /** Without a type letter the value is the source's value, or the default. */
  lemma UntypedParamIsRaw(rt: Runtime, source: Entries, spec: Spec)
    requires ParseName(spec.name).1.None?
    ensures Param(rt, source, spec) == Ok((spec.name, Coalesce(Lookup(source, StrKey(spec.name)), spec.default)))
  {
  }

  /** A present, typed value identical to the default is returned uncast; any
      other present value is cast. */
  lemma TypedParamCast(rt: Runtime, source: Entries, spec: Spec)
    requires ParseName(spec.name).1.Some?
    requires Lookup(source, StrKey(ParseName(spec.name).0)).Some?
    requires !Lookup(source, StrKey(ParseName(spec.name).0)).value.Null?
    ensures var x := Lookup(source, StrKey(ParseName(spec.name).0)).value;
      && (Identical(x, spec.default) ==> Param(rt, source, spec) == Ok((ParseName(spec.name).0, x)))
      && (!Identical(x, spec.default) ==>
            match TypeCast(rt, x, ParseName(spec.name).1.value)
            case Ok(y) => Param(rt, source, spec) == Ok((ParseName(spec.name).0, y))
            case Err(e) => Param(rt, source, spec) == Err(e))
  {
  }

  /** A cast never receives `null`: a `null` in the source falls back to the
      default, and a `null` default is identical to itself. */
  lemma CastNeverSeesNull(rt: Runtime, source: Entries, spec: Spec)
    requires Coalesce(Lookup(source, StrKey(ParseName(spec.name).0)), spec.default).Null?
    ensures Param(rt, source, spec) == Ok((ParseName(spec.name).0, Null))
  {
  }

  /** The (result key, value) pairs for any way `resolve` of resolving one
      spec, in spec order; the first failure aborts. */
  function PairsBy(resolve: Spec -> Result<(string, Value)>, params: seq<(Key, Spec)>, indexArray: bool): (r: Result<seq<(Key, Value)>>)
    ensures r.Err? <==> exists i :: 0 <= i < |params| && resolve(params[i].1).Err?
    ensures r.Err? ==> exists i :: (0 <= i < |params| && resolve(params[i].1) == Err(r.error) &&
      forall j :: 0 <= j < i ==> resolve(params[j].1).Ok?)
    ensures r.Ok? ==> |r.value| == |params|
    ensures r.Ok? ==> forall i :: 0 <= i < |params| ==>
      var p := resolve(params[i].1).value;
      r.value[i] == (if indexArray then params[i].0 else StrKey(p.0), p.1)
    decreases |params|
  {
    if |params| == 0 then Ok([])
    else
      var rest := PairsBy(resolve, params[1..], indexArray);
      assert forall i :: 1 <= i < |params| ==> params[i] == params[1..][i - 1];
      match resolve(params[0].1)
      case Err(e) => Err(e)
      case Ok(p) =>
        match rest
        case Err(e) => Err(e)
        case Ok(ps) => Ok([(if indexArray then params[0].0 else StrKey(p.0), p.1)] + ps)
  }

  /** The resolved (result key, value) pairs, in spec order; the first failing
      cast aborts the whole call. */
  function Pairs(rt: Runtime, source: Entries, params: seq<(Key, Spec)>, indexArray: bool): (r: Result<seq<(Key, Value)>>)
    ensures r.Err? <==> exists i :: 0 <= i < |params| && Param(rt, source, params[i].1).Err?
    ensures r.Err? ==> exists i :: (0 <= i < |params| && Param(rt, source, params[i].1) == Err(r.error) &&
      forall j :: 0 <= j < i ==> Param(rt, source, params[j].1).Ok?)
    ensures r.Ok? ==> |r.value| == |params|
    ensures r.Ok? ==> forall i :: 0 <= i < |params| ==>
      var p := Param(rt, source, params[i].1).value;
      r.value[i] == (if indexArray then params[i].0 else StrKey(p.0), p.1)
  {
    PairsBy(spec => Param(rt, source, spec), params, indexArray)
  }

  /** `$result[$k] = $v` for each pair in turn, starting from `[]`. */
  function AssignAll(ps: seq<(Key, Value)>): (r: Entries)
    ensures WellFormed(r)
    ensures |r| <= |ps|
    decreases |ps|
  {
    if |ps| == 0 then []
    else
      var n := |ps| - 1;
      Assign(AssignAll(ps[..n]), ps[n].0, ps[n].1)
  }

  /** The value of the last pair whose key denotes `k`. */
  function LastValue(ps: seq<(Key, Value)>, k: Key): (r: Option<Value>)
    ensures r.None? <==> forall i :: 0 <= i < |ps| ==> Normalize(ps[i].0) != Normalize(k)
    ensures r.Some? ==> exists i :: (0 <= i < |ps| && Normalize(ps[i].0) == Normalize(k) && ps[i].1 == r.value &&
      forall j :: i < j < |ps| ==> Normalize(ps[j].0) != Normalize(k))
  {
    match LastIndex(ps, k)
    case None => None
    case Some(i) => Some(ps[i].1)
  }

  /** Position of the last pair whose key normalises to the key of `k`. */
  function LastIndex(ps: seq<(Key, Value)>, k: Key): (r: Option<nat>)
    ensures r.None? <==> forall i :: 0 <= i < |ps| ==> Normalize(ps[i].0) != Normalize(k)
    ensures r.Some? ==> r.value < |ps| && Normalize(ps[r.value].0) == Normalize(k)
    ensures r.Some? ==> forall j :: r.value < j < |ps| ==> Normalize(ps[j].0) != Normalize(k)
    decreases |ps|
  {
    if |ps| == 0 then None
    else
      var n := |ps| - 1;
      if Normalize(ps[n].0) == Normalize(k) then Some(n)
      else
        var init := ps[..n];
        assert forall i :: 0 <= i < n ==> init[i] == ps[i];
        LastIndex(init, k)
  }

  /** After the assignments, each key holds the value of the last pair that
      named it, and no other key is present. */
  lemma {:induction false} AssignAllLookup(ps: seq<(Key, Value)>, k: Key)
    ensures Lookup(AssignAll(ps), k) == LastValue(ps, k)
    decreases |ps|
  {
    if |ps| > 0 {
      AssignAllLookup(ps[..|ps| - 1], k);
      LookupStep(ps, k);
    }
  }

  lemma LookupStep(ps: seq<(Key, Value)>, k: Key)
    requires |ps| > 0
    requires Lookup(AssignAll(ps[..|ps| - 1]), k) == LastValue(ps[..|ps| - 1], k)
    ensures Lookup(AssignAll(ps), k) == LastValue(ps, k)
  {
    AssignAllStep(ps);
    LastValueStep(ps, k);
  }

  /** The last pair decides when it names the key; otherwise the earlier
      pairs do. */
  lemma LastValueStep(ps: seq<(Key, Value)>, k: Key)
    requires |ps| > 0
    ensures Normalize(ps[|ps| - 1].0) == Normalize(k) ==> LastValue(ps, k) == Some(ps[|ps| - 1].1)
    ensures Normalize(ps[|ps| - 1].0) != Normalize(k) ==> LastValue(ps, k) == LastValue(ps[..|ps| - 1], k)
  {
    var n := |ps| - 1;
    var init := ps[..n];
    if Normalize(ps[n].0) != Normalize(k) {
      assert LastIndex(ps, k) == LastIndex(init, k);
      match LastIndex(init, k)
      case None =>
      case Some(i) => assert init[i] == ps[i];
    }
  }

  /** Position of the first pair whose key normalises to the key of `k`, or
      `|ps|` when no pair names it. */
  function FirstNaming(ps: seq<(Key, Value)>, k: Key): (r: nat)
    ensures r <= |ps|
    ensures r < |ps| ==> Normalize(ps[r].0) == Normalize(k)
    ensures forall j :: 0 <= j < r ==> Normalize(ps[j].0) != Normalize(k)
    decreases |ps|
  {
    if |ps| == 0 || Normalize(ps[0].0) == Normalize(k) then 0
    else
      assert forall j :: 1 <= j < |ps| ==> ps[j] == ps[1..][j - 1];
      1 + FirstNaming(ps[1..], k)
  }

  /** A pair more at the end moves no first naming, and first names only a
      key no earlier pair named. */
  lemma FirstNamingStep(ps: seq<(Key, Value)>, k: Key)
    requires |ps| > 0
    ensures var init := ps[..|ps| - 1];
      && (FirstNaming(init, k) < |init| ==> FirstNaming(ps, k) == FirstNaming(init, k))
      && (FirstNaming(init, k) == |init| && Normalize(ps[|ps| - 1].0) == Normalize(k) ==> FirstNaming(ps, k) == |init|)
  {
    var init := ps[..|ps| - 1];
    assert forall j :: 0 <= j < |init| ==> init[j] == ps[j];
  }

  /** The keys of `r` appear in the order the pairs first name them. */
  predicate InFirstNamingOrder(r: Entries, ps: seq<(Key, Value)>)
  {
    && (forall i :: 0 <= i < |r| ==> FirstNaming(ps, r[i].0) < |ps|)
    && (forall i, j :: 0 <= i < j < |r| ==> FirstNaming(ps, r[i].0) < FirstNaming(ps, r[j].0))
  }

  /** The assembled array lists its keys in the order the pairs first name
      them: a key keeps the place of its first assignment, and a later
      overwrite does not move it. */
  lemma {:induction false} AssignAllOrder(ps: seq<(Key, Value)>)
    ensures InFirstNamingOrder(AssignAll(ps), ps)
    decreases |ps|
  {
    if |ps| > 0 {
      AssignAllOrder(ps[..|ps| - 1]);
      AssignOrderStep(ps);
    }
  }

  lemma AssignOrderStep(ps: seq<(Key, Value)>)
    requires |ps| > 0 && InFirstNamingOrder(AssignAll(ps[..|ps| - 1]), ps[..|ps| - 1])
    ensures InFirstNamingOrder(AssignAll(ps), ps)
  {
    var n := |ps| - 1;
    var init := ps[..n];
    AssignAllStep(ps);
    AssignAllHasKey(init, ps[n].0);
    OrderStep(ps, init, AssignAll(init), AssignAll(ps));
  }

  /** One assignment more keeps the keys in first-naming order. */
  lemma OrderStep(ps: seq<(Key, Value)>, init: seq<(Key, Value)>, e: Entries, r: Entries)
    requires |ps| > 0 && init == ps[..|ps| - 1]
    requires InFirstNamingOrder(e, init)
    requires HasKey(e, ps[|ps| - 1].0) <==> exists i :: 0 <= i < |init| && Normalize(init[i].0) == Normalize(ps[|ps| - 1].0)
    requires HasKey(e, ps[|ps| - 1].0) ==> |r| == |e| && forall i :: 0 <= i < |e| ==> r[i].0 == e[i].0
    requires !HasKey(e, ps[|ps| - 1].0) ==> r == e + [(Normalize(ps[|ps| - 1].0), ps[|ps| - 1].1)]
    ensures InFirstNamingOrder(r, ps)
  {
    FirstNamingKept(ps, e);
    if HasKey(e, ps[|ps| - 1].0) {
      OrderOverwrite(ps, e, r);
    } else {
      FirstNamingNew(ps, init);
      OrderAppend(ps, e, r);
    }
  }

  /** Keys some earlier pair named keep their first naming. */
  lemma FirstNamingKept(ps: seq<(Key, Value)>, e: Entries)
    requires |ps| > 0 && InFirstNamingOrder(e, ps[..|ps| - 1])
    ensures forall i :: 0 <= i < |e| ==> FirstNaming(ps, e[i].0) == FirstNaming(ps[..|ps| - 1], e[i].0)
  {
    forall i | 0 <= i < |e|
      ensures FirstNaming(ps, e[i].0) == FirstNaming(ps[..|ps| - 1], e[i].0)
    {
      FirstNamingStep(ps, e[i].0);
    }
  }

  /** The last pair first names its key when no earlier pair names it. */
  lemma FirstNamingNew(ps: seq<(Key, Value)>, init: seq<(Key, Value)>)
    requires |ps| > 0 && init == ps[..|ps| - 1]
    requires forall i :: 0 <= i < |init| ==> Normalize(init[i].0) != Normalize(ps[|ps| - 1].0)
    ensures FirstNaming(ps, Normalize(ps[|ps| - 1].0)) == |ps| - 1
  {
    var k := Normalize(ps[|ps| - 1].0);
    assert Normalize(k) == k;
    assert FirstNaming(init, k) == |init|;
    FirstNamingStep(ps, k);
  }

  lemma OrderOverwrite(ps: seq<(Key, Value)>, e: Entries, r: Entries)
    requires |ps| > 0 && InFirstNamingOrder(e, ps[..|ps| - 1])
    requires forall i :: 0 <= i < |e| ==> FirstNaming(ps, e[i].0) == FirstNaming(ps[..|ps| - 1], e[i].0)
    requires |r| == |e| && forall i :: 0 <= i < |e| ==> r[i].0 == e[i].0
    ensures InFirstNamingOrder(r, ps)
  {
  }

  lemma OrderAppend(ps: seq<(Key, Value)>, e: Entries, r: Entries)
    requires |ps| > 0 && InFirstNamingOrder(e, ps[..|ps| - 1])
    requires forall i :: 0 <= i < |e| ==> FirstNaming(ps, e[i].0) == FirstNaming(ps[..|ps| - 1], e[i].0)
    requires r == e + [(Normalize(ps[|ps| - 1].0), ps[|ps| - 1].1)]
    requires FirstNaming(ps, Normalize(ps[|ps| - 1].0)) == |ps| - 1
    ensures InFirstNamingOrder(r, ps)
  {
    assert forall i :: 0 <= i < |e| ==> r[i] == e[i];
  }

  /** When the pairs' keys are stored keys and no two are the same, the
      assignments reproduce the pairs exactly. */
  lemma {:induction false} AssignAllDistinct(ps: seq<(Key, Value)>)
    requires forall i :: 0 <= i < |ps| ==> IsNormal(ps[i].0)
    requires forall i, j :: 0 <= i < j < |ps| ==> ps[i].0 != ps[j].0
    ensures AssignAll(ps) == ps
    decreases |ps|
  {
    if |ps| > 0 {
      var n := |ps| - 1;
      var init := ps[..n];
      var last := ps[n];
      assert AssignAll(init) == init by {
        assert forall i :: 0 <= i < n ==> init[i] == ps[i];
        AssignAllDistinct(init);
      }
      assert Assign(init, last.0, last.1) == init + [last] by {
        assert forall i :: 0 <= i < n ==> init[i] == ps[i];
        assert Normalize(last.0) == last.0;
        AssignFresh(init, last.0, last.1);
      }
      AssignAllStep(ps);
      DropLast(ps);
    }
  }

  lemma DropLast<T>(s: seq<T>)
    requires |s| > 0
    ensures s == s[..|s| - 1] + [s[|s| - 1]]
  {
  }

  /** One assignment more. */
  lemma AssignAllStep(ps: seq<(Key, Value)>)
    requires |ps| > 0
    ensures AssignAll(ps) == Assign(AssignAll(ps[..|ps| - 1]), ps[|ps| - 1].0, ps[|ps| - 1].1)
  {
  }

  /** Assigning a key no entry holds appends it. */
  lemma AssignFresh(e: Entries, k: Key, v: Value)
    requires forall i :: 0 <= i < |e| ==> e[i].0 != Normalize(k)
    ensures Assign(e, k, v) == e + [(Normalize(k), v)]
  {
    assert Find(e, Normalize(k)).None?;
  }

  /** `doMore($source, $params, $index_array)`. */
  function DoMore(rt: Runtime, source: Entries, params: seq<(Key, Spec)>, indexArray: bool): (r: Result<Entries>)
    ensures r.Err? <==> exists i :: 0 <= i < |params| && Param(rt, source, params[i].1).Err?
    ensures r.Err? ==> r.error.InvalidArgument?
    ensures r.Ok? ==> WellFormed(r.value)
  {
    match Pairs(rt, source, params, indexArray)
    case Err(e) => Err(e)
    case Ok(ps) => Ok(AssignAll(ps))
  }

  /** With `$index_array`, the result lists every spec's value under the
      spec's own position key, in spec order. */
  lemma DoMoreIndexed(rt: Runtime, source: Entries, params: seq<(Key, Spec)>)
    requires forall i :: 0 <= i < |params| ==> IsNormal(params[i].0)
    requires forall i, j :: 0 <= i < j < |params| ==> params[i].0 != params[j].0
    requires DoMore(rt, source, params, true).Ok?
    ensures var r := DoMore(rt, source, params, true).value;
      && |r| == |params|
      && forall i :: 0 <= i < |params| ==>
           r[i] == (params[i].0, Param(rt, source, params[i].1).value.1)
  {
    var ps := Pairs(rt, source, params, true).value;
    PairsIndexed(rt, source, params);
    KeysCarried(ps, params);
    AssignAllDistinct(ps);
  }

  /** With `$index_array` every pair is keyed by its spec's own key. */
  lemma PairsIndexed(rt: Runtime, source: Entries, params: seq<(Key, Spec)>)
    requires Pairs(rt, source, params, true).Ok?
    ensures var ps := Pairs(rt, source, params, true).value;
      && |ps| == |params|
      && forall i :: 0 <= i < |params| ==> ps[i] == (params[i].0, Param(rt, source, params[i].1).value.1)
  {
  }

  lemma KeysCarried(ps: seq<(Key, Value)>, params: seq<(Key, Spec)>)
    requires |ps| == |params|
    requires forall i :: 0 <= i < |params| ==> ps[i].0 == params[i].0
    requires forall i :: 0 <= i < |params| ==> IsNormal(params[i].0)
    requires forall i, j :: 0 <= i < j < |params| ==> params[i].0 != params[j].0
    ensures forall i :: 0 <= i < |ps| ==> IsNormal(ps[i].0)
    ensures forall i, j :: 0 <= i < j < |ps| ==> ps[i].0 != ps[j].0
  {
  }

  /** Without `$index_array`, the result maps each parsed name to the value of
      the last spec with that name (a later duplicate overwrites), and holds
      no other key. */
  lemma DoMoreNamed(rt: Runtime, source: Entries, params: seq<(Key, Spec)>, k: Key)
    requires DoMore(rt, source, params, false).Ok?
    ensures var r := DoMore(rt, source, params, false).value;
      var ps := Pairs(rt, source, params, false).value;
      && Lookup(r, k) == LastValue(ps, k)
      && (HasKey(r, k) <==> exists i :: (0 <= i < |params| &&
            Normalize(StrKey(ParseName(params[i].1.name).0)) == Normalize(k)))
  {
    var ps := Pairs(rt, source, params, false).value;
    AssignAllLookup(ps, k);
    AssignAllHasKey(ps, k);
    PairsNamed(rt, source, params);
    KeysAgree(ps, params, k);
  }

  /** Without `$index_array`, the result lists the names in the order of the
      first spec naming each; a later duplicate changes the value in place. */
  lemma DoMoreNamedOrder(rt: Runtime, source: Entries, params: seq<(Key, Spec)>)
    requires DoMore(rt, source, params, false).Ok?
    ensures InFirstNamingOrder(DoMore(rt, source, params, false).value, Pairs(rt, source, params, false).value)
  {
    AssignAllOrder(Pairs(rt, source, params, false).value);
  }

  /** A key is present after the assignments exactly when some pair names it. */
  lemma AssignAllHasKey(ps: seq<(Key, Value)>, k: Key)
    ensures HasKey(AssignAll(ps), k) <==> exists i :: 0 <= i < |ps| && Normalize(ps[i].0) == Normalize(k)
  {
    AssignAllLookup(ps, k);
  }

  /** Without `$index_array` every pair is keyed by its spec's parameter name. */
  lemma PairsNamed(rt: Runtime, source: Entries, params: seq<(Key, Spec)>)
    requires Pairs(rt, source, params, false).Ok?
    ensures var ps := Pairs(rt, source, params, false).value;
      |ps| == |params| &&
      forall i :: 0 <= i < |params| ==> ps[i].0 == StrKey(ParseName(params[i].1.name).0)
  {
  }

  lemma KeysAgree(ps: seq<(Key, Value)>, params: seq<(Key, Spec)>, k: Key)
    requires |ps| == |params|
    requires forall i :: 0 <= i < |params| ==> ps[i].0 == StrKey(ParseName(params[i].1.name).0)
    ensures (exists i :: 0 <= i < |ps| && Normalize(ps[i].0) == Normalize(k)) <==>
      exists i :: 0 <= i < |params| && Normalize(StrKey(ParseName(params[i].1.name).0)) == Normalize(k)
  {
    if exists i :: 0 <= i < |ps| && Normalize(ps[i].0) == Normalize(k) {
      var i :| 0 <= i < |ps| && Normalize(ps[i].0) == Normalize(k);
      assert 0 <= i < |params| && Normalize(StrKey(ParseName(params[i].1.name).0)) == Normalize(k);
    }
    if exists i :: 0 <= i < |params| && Normalize(StrKey(ParseName(params[i].1.name).0)) == Normalize(k) {
      var i :| 0 <= i < |params| && Normalize(StrKey(ParseName(params[i].1.name).0)) == Normalize(k);
      assert 0 <= i < |ps| && Normalize(ps[i].0) == Normalize(k);
    }
  }
}
