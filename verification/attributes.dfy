/** The `HasAttributes` trait: a container of attributes (a PHP array) read by
    dotted path, written at top level only, and validated against a list of
    required keys when it is constructed.

    The container is a value; each mutator returns the new container. */
module Attributes {
  import opened Numerals
  import opened Values
  import opened Arrays
  import opened Text

  /** The argument of `has`: `null`, one key, or a list of keys. */
  datatype KeyArg = NoKey | One(key: Key) | Many(keys: seq<Key>)

  /** `requiredKeys` comes from the class; `attributes` is the current data. */
  datatype Container = Container(requiredKeys: seq<KeyArg>, attributes: Entries)

  /** Where a dotted walk ends: at a value, at a missing segment, or at a
      non-array that `exists` refuses. */
  datatype Walked = Reached(value: Value) | Absent | NotAnArray

  /** `exists($array, $key)`. The parameter is typed `array`, so passing any
      other value raises a TypeError. */
  function Exists(v: Value, k: Key): (r: Result<bool>)
    ensures r.Err? <==> !v.Arr?
    ensures r.Err? ==> r.error == TypeError
    ensures r == Ok(true) <==> v.Arr? && Lookup(v.entries, k).Some?
  {
    if v.Arr? then Ok(HasKey(v.entries, k)) else Err(TypeError)
  }

  /** The segments of a dotted key: its text split at every dot. */
  function Path(k: Key): seq<string>
  {
    Split(KeyText(k), '.')
  }

  /** The segment loop shared by `get` and `has`: check each segment with
      `exists`, then step into it. */
  function Walk(v: Value, path: seq<string>): (r: Walked)
    ensures |path| == 0 ==> r == Reached(v)
    ensures |path| > 0 && !v.Arr? ==> r == NotAnArray
    ensures |path| > 0 && v.Arr? && !HasKey(v.entries, StrKey(path[0])) ==> r == Absent
    ensures r.NotAnArray? ==> |path| > 0
    decreases |path|
  {
    if |path| == 0 then Reached(v)
    else match Exists(v, StrKey(path[0]))
      case Err(_) => NotAnArray
      case Ok(false) => Absent
      case Ok(true) => Walk(Lookup(v.entries, StrKey(path[0])).value, path[1..])
  }

  /** A walk along `a + b` is a walk along `a` continued along `b`. */
  lemma {:induction false} WalkConcat(v: Value, a: seq<string>, b: seq<string>)
    ensures Walk(v, a + b) == match Walk(v, a) case Reached(x) => Walk(x, b) case w => w
    decreases |a|
  {
    if |a| == 0 {
      assert a + b == b;
    } else {
      assert (a + b)[0] == a[0];
      assert (a + b)[1..] == a[1..] + b;
      if Exists(v, StrKey(a[0])) == Ok(true) {
        WalkConcat(Lookup(v.entries, StrKey(a[0])).value, a[1..], b);
      }
    }
  }

  /** When the walk reaches an array that lacks the next segment, the whole
      walk ends there as `Absent`. */
  lemma {:induction false} WalkMissingSegment(v: Value, p: seq<string>, i: nat, e: Entries)
    requires i < |p|
    requires Walk(v, p[..i]) == Reached(Arr(e))
    requires !HasKey(e, StrKey(p[i]))
    ensures Walk(v, p) == Absent
    decreases i
  {
    if i == 0 {
      assert p[..0] == [];
    } else {
      var q := p[..i];
      assert q[0] == p[0];
      var x := Lookup(v.entries, StrKey(p[0])).value;
      assert Walk(v, q) == Walk(x, q[1..]);
      assert q[1..] == p[1..][..i - 1];
      WalkMissingSegment(x, p[1..], i - 1, e);
    }
  }

  /** When the walk reaches a non-array before the last segment, `exists`
      refuses it and the whole walk fails. */
  lemma {:induction false} WalkThroughScalar(v: Value, p: seq<string>, i: nat, x: Value)
    requires i < |p|
    requires Walk(v, p[..i]) == Reached(x) && !x.Arr?
    ensures Walk(v, p) == NotAnArray
    decreases i
  {
    if i == 0 {
      assert p[..0] == [];
    } else {
      var q := p[..i];
      assert q[0] == p[0];
      var y := Lookup(v.entries, StrKey(p[0])).value;
      assert Walk(v, q) == Walk(y, q[1..]);
      assert q[1..] == p[1..][..i - 1];
      WalkThroughScalar(y, p[1..], i - 1, x);
    }
  }

  /** When every segment but the last resolves to an array holding the last
      segment, the walk reaches the value under it. */
  lemma {:induction false} WalkNested(v: Value, p: seq<string>, e: Entries, x: Value)
    requires |p| >= 1
    requires Walk(v, p[..|p| - 1]) == Reached(Arr(e))
    requires Lookup(e, StrKey(p[|p| - 1])) == Some(x)
    ensures Walk(v, p) == Reached(x)
    decreases |p|
  {
    var n := |p| - 1;
    if n == 0 {
      assert Walk(v, p) == Reached(x) by {
        assert p[..0] == [];
        assert v == Arr(e);
        assert Exists(v, StrKey(p[0])) == Ok(true);
        assert Walk(v, p) == Walk(x, p[1..]);
        assert p[1..] == [];
      }
    } else {
      var q := p[..n];
      var tail := p[1..];
      var y := Lookup(v.entries, StrKey(p[0])).value;
      assert Walk(v, p) == Walk(y, tail) by {
        assert q[0] == p[0];
        assert Exists(v, StrKey(p[0])) == Ok(true);
      }
      assert Walk(y, tail[..|tail| - 1]) == Reached(Arr(e)) by {
        assert q[0] == p[0];
        assert Walk(v, q) == Walk(y, q[1..]);
        assert q[1..] == tail[..n - 1];
      }
      assert tail[|tail| - 1] == p[n];
      WalkNested(y, tail, e, x);
    }
  }

  /** `get($key, $default)`; `None` is the `null` key. */
  function Get(c: Container, key: Option<Key>, default: Value): (r: Result<Value>)
    ensures key.None? ==> r == Ok(Arr(c.attributes))
    ensures r.Err? ==> r.error == TypeError
  {
    match key
    case None => Ok(Arr(c.attributes))
    case Some(k) =>
      match Walk(Arr(c.attributes), Path(k))
      case Reached(x) => Ok(x)
      case Absent => Ok(default)
      case NotAnArray => Err(TypeError)
  }

  /** `get` returns the nested value when every segment but the last
      resolves to an array holding the last segment. */
  lemma GetNested(c: Container, k: Key, default: Value, e: Entries, x: Value)
    requires |Path(k)| >= 1
    requires Walk(Arr(c.attributes), Path(k)[..|Path(k)| - 1]) == Reached(Arr(e))
    requires Lookup(e, StrKey(Path(k)[|Path(k)| - 1])) == Some(x)
    ensures Get(c, Some(k), default) == Ok(x)
  {
    WalkNested(Arr(c.attributes), Path(k), e, x);
  }

  /** `get` returns the default as soon as a segment is missing from the
      array reached so far. */
  lemma GetMissing(c: Container, k: Key, default: Value, i: nat, e: Entries)
    requires i < |Path(k)|
    requires Walk(Arr(c.attributes), Path(k)[..i]) == Reached(Arr(e))
    requires !HasKey(e, StrKey(Path(k)[i]))
    ensures Get(c, Some(k), default) == Ok(default)
  {
    WalkMissingSegment(Arr(c.attributes), Path(k), i, e);
  }

  /** `get` raises a TypeError when the walk meets a non-array before the
      last segment. */
  lemma GetThroughScalar(c: Container, k: Key, default: Value, i: nat, x: Value)
    requires i < |Path(k)|
    requires Walk(Arr(c.attributes), Path(k)[..i]) == Reached(x) && !x.Arr?
    ensures Get(c, Some(k), default) == Err(TypeError)
  {
    WalkThroughScalar(Arr(c.attributes), Path(k), i, x);
  }

  /** `(array)$key`. */
  function KeyList(key: KeyArg): seq<Key>
  {
    match key
    case NoKey => []
    case One(k) => [k]
    case Many(ks) => ks
  }

  /** `(string)$key`, which is also how `implode` prints it; a list prints as
      `Array`. */
  function ArgText(key: KeyArg): string
  {
    match key
    case NoKey => ""
    case One(k) => KeyText(k)
    case Many(_) => "Array"
  }

  /** The per-key loop of `has`: a key present at top level is skipped;
      any other key needs the dotted walk of `text` to resolve. */
  function HasEvery(attrs: Entries, keys: seq<Key>, text: string): (r: Result<bool>)
    ensures var w := Walk(Arr(attrs), Split(text, '.'));
      && (r == Ok(true) <==> (forall i :: 0 <= i < |keys| ==> HasKey(attrs, keys[i])) || w.Reached?)
      && (r == Ok(false) <==> (exists i :: 0 <= i < |keys| && !HasKey(attrs, keys[i])) && w.Absent?)
      && (r.Err? <==> (exists i :: 0 <= i < |keys| && !HasKey(attrs, keys[i])) && w.NotAnArray?)
    ensures r.Err? ==> r.error == TypeError
    decreases |keys|
  {
    if |keys| == 0 then Ok(true)
    else if HasKey(attrs, keys[0]) then
      var r := HasEvery(attrs, keys[1..], text);
      assert forall i :: 1 <= i < |keys| ==> keys[i] == keys[1..][i - 1];
      r
    else
      match Walk(Arr(attrs), Split(text, '.'))
      case Reached(_) => HasEvery(attrs, keys[1..], text)
      case Absent => Ok(false)
      case NotAnArray => Err(TypeError)
  }

  /** `has($key)`: false for empty attributes, a `null` key or an empty list;
      otherwise every listed key must be a top-level key or resolve by the
      dotted walk of `(string)$key`. */
  function Has(c: Container, key: KeyArg): (r: Result<bool>)
    ensures |c.attributes| == 0 ==> r == Ok(false)
    ensures key.NoKey? || key == Many([]) ==> r == Ok(false)
    ensures r.Err? ==> r.error == TypeError
  {
    if |c.attributes| == 0 then Ok(false)
    else if key.NoKey? then Ok(false)
    else if |KeyList(key)| == 0 then Ok(false)
    else HasEvery(c.attributes, KeyList(key), ArgText(key))
  }

  /** For one key, `has` is: a top-level key, or the dotted walk resolves. A
      TypeError comes only from a walk through a non-array. */
  lemma HasSingleKey(c: Container, k: Key)
    requires |c.attributes| > 0
    ensures Has(c, One(k)) == Ok(true) <==> HasKey(c.attributes, k) || Walk(Arr(c.attributes), Path(k)).Reached?
    ensures Has(c, One(k)).Err? <==> !HasKey(c.attributes, k) && Walk(Arr(c.attributes), Path(k)).NotAnArray?
  {
  }

  /** Unless the key is a top-level key with a dot in it, `has` agrees with
      `get`: it is true exactly when `get` succeeds and its answer does not
      depend on the default, and it fails exactly when `get` fails. */
  lemma HasAgreesWithGet(c: Container, k: Key, d1: Value, d2: Value)
    requires |c.attributes| > 0 && (!HasKey(c.attributes, k) || '.' !in KeyText(k))
    requires d1 != d2
    ensures Has(c, One(k)) == Ok(true) <==> Get(c, Some(k), d1).Ok? && Get(c, Some(k), d1) == Get(c, Some(k), d2)
    ensures Has(c, One(k)).Err? <==> Get(c, Some(k), d1).Err?
  {
    HasSingleKey(c, k);
    if HasKey(c.attributes, k) {
      TopLevelGet(c, k, d1);
      TopLevelGet(c, k, d2);
    }
  }

  /** For a list argument, every key missing at top level is checked by
      walking the text `Array`, not the key itself. */
  lemma HasListWalksArrayText(c: Container, ks: seq<Key>)
    requires |c.attributes| > 0 && |ks| > 0
    requires exists i :: 0 <= i < |ks| && !HasKey(c.attributes, ks[i])
    ensures Has(c, Many(ks)) == match Walk(Arr(c.attributes), ["Array"])
      case Reached(_) => Ok(true)
      case Absent => Ok(false)
      case NotAnArray => Err(TypeError)
  {
    ArrayTextPath();
    var r := HasEvery(c.attributes, ks, "Array");
    assert Has(c, Many(ks)) == r;
    WalkDecides(r, Walk(Arr(c.attributes), ["Array"]));
  }

  lemma ArrayTextPath()
    ensures Split("Array", '.') == ["Array"]
  {
    assert '.' !in "Array";
  }

  /** A `has` answer that tracks a walk's outcome is that outcome. */
  lemma WalkDecides(r: Result<bool>, w: Walked)
    requires r == Ok(true) <==> w.Reached?
    requires r == Ok(false) <==> w.Absent?
    requires r.Err? <==> w.NotAnArray?
    requires r.Err? ==> r.error == TypeError
    ensures r == match w case Reached(_) => Ok(true) case Absent => Ok(false) case NotAnArray => Err(TypeError)
  {
  }

  /** The intended reading of `has` for a list: each key is checked by its own
      dotted walk. */
  function HasEach(c: Container, key: KeyArg): (r: Result<bool>)
    ensures |c.attributes| == 0 || key.NoKey? || key == Many([]) ==> r == Ok(false)
  {
    if |c.attributes| == 0 || key.NoKey? || |KeyList(key)| == 0 then Ok(false)
    else HasEachFrom(c, KeyList(key))
  }

  function HasEachFrom(c: Container, ks: seq<Key>): Result<bool>
    decreases |ks|
  {
    if |ks| == 0 then Ok(true)
    else match HasEvery(c.attributes, [ks[0]], KeyText(ks[0]))
      case Ok(true) => HasEachFrom(c, ks[1..])
      case other => other
  }

  /** The corrected `has` agrees with `has` on a single key. */
  lemma HasEachSingleKey(c: Container, k: Key)
    ensures HasEach(c, One(k)) == Has(c, One(k))
  {
    assert [k][1..] == [];
    assert HasEachFrom(c, [k][1..]) == Ok(true);
  }

  /** The corrected `has` of a list holds exactly when `has` holds for every
      key of the list on its own. */
  lemma HasEachIsConjunction(c: Container, ks: seq<Key>)
    requires |c.attributes| > 0 && |ks| > 0
    ensures HasEach(c, Many(ks)) == Ok(true) <==> forall i :: 0 <= i < |ks| ==> Has(c, One(ks[i])) == Ok(true)
  {
    HasEachFromAll(c, ks);
  }

  lemma {:induction false} HasEachFromAll(c: Container, ks: seq<Key>)
    requires |c.attributes| > 0
    ensures HasEachFrom(c, ks) == Ok(true) <==> forall i :: 0 <= i < |ks| ==> Has(c, One(ks[i])) == Ok(true)
    decreases |ks|
  {
    if |ks| > 0 {
      HasEachFromAll(c, ks[1..]);
      assert forall i :: 1 <= i < |ks| ==> ks[i] == ks[1..][i - 1];
    }
  }

  /** `set($key, $value)`: a `null` key appends at the next integer index;
      any other key is written at top level only (never along a dotted path). */
  function Set(c: Container, key: Option<Key>, v: Value): (r: Result<Container>)
    ensures r.Ok? ==> r.value.requiredKeys == c.requiredKeys
    ensures r.Ok? && WellFormed(c.attributes) ==> WellFormed(r.value.attributes)
    ensures key.Some? ==> r.Ok?
    ensures key.Some? ==> Lookup(r.value.attributes, key.value) == Some(v)
    ensures key.Some? ==> forall k' :: Normalize(k') != Normalize(key.value) ==>
      Lookup(r.value.attributes, k') == Lookup(c.attributes, k')
    ensures key.Some? && HasKey(c.attributes, key.value) ==>
      |r.value.attributes| == |c.attributes| &&
      forall i :: 0 <= i < |c.attributes| ==> r.value.attributes[i].0 == c.attributes[i].0
    ensures key.Some? && !HasKey(c.attributes, key.value) ==>
      r.value.attributes == c.attributes + [(Normalize(key.value), v)]
    ensures key.None? ==> (r.Err? <==> exists i :: 0 <= i < |c.attributes| && c.attributes[i].0 == IntKey(IntMax))
    ensures key.None? && r.Ok? ==>
      var a := r.value.attributes;
      && |a| == |c.attributes| + 1 && a[..|c.attributes|] == c.attributes
      && a[|c.attributes|].1 == v && a[|c.attributes|].0.IntKey?
      && (forall i :: 0 <= i < |c.attributes| && c.attributes[i].0.IntKey? ==> c.attributes[i].0.i < a[|c.attributes|].0.i)
      && ((forall i :: 0 <= i < |c.attributes| ==> !c.attributes[i].0.IntKey?) ==> a[|c.attributes|].0 == IntKey(0))
      && ((exists i :: 0 <= i < |c.attributes| && c.attributes[i].0.IntKey?) ==>
            exists i :: 0 <= i < |c.attributes| && c.attributes[i].0 == IntKey(a[|c.attributes|].0.i - 1))
  {
    match key
    case None =>
      (match Push(c.attributes, v)
       case Ok(a) => Ok(c.(attributes := a))
       case Err(e) => Err(e))
    case Some(k) => Ok(c.(attributes := Assign(c.attributes, k, v)))
  }

  /** Write-then-read: after `set($k, $v)`, `get($k)` returns `$v` whenever
      `$k` contains no dot. */
  lemma GetAfterSet(c: Container, k: Key, v: Value, default: Value)
    requires '.' !in KeyText(k)
    ensures Get(Set(c, Some(k), v).value, Some(k), default) == Ok(v)
  {
    var a := Set(c, Some(k), v).value.attributes;
    var t := KeyText(k);
    assert Path(k) == [t];
    NormalizeKeyText(k);
    assert Lookup(a, k) == Some(v);
    assert Lookup(a, StrKey(t)) == Some(v);
    assert [t][1..] == [];
    assert Walk(Arr(a), [t]) == Walk(v, []);
  }

  /** A top-level `set` leaves every `get` whose first segment names another
      key as it was. */
  lemma GetUnaffectedBySet(c: Container, k: Key, v: Value, p: Key, default: Value)
    requires Normalize(StrKey(Path(p)[0])) != Normalize(k)
    ensures Get(Set(c, Some(k), v).value, Some(p), default) == Get(c, Some(p), default)
  {
    var after := Set(c, Some(k), v).value.attributes;
    var first := StrKey(Path(p)[0]);
    assert Lookup(after, first) == Lookup(c.attributes, first);
    WalkSameFirst(c.attributes, after, Path(p));
  }

  /** A walk sees the top-level array only through its first segment. */
  lemma WalkSameFirst(a: Entries, b: Entries, path: seq<string>)
    requires |path| >= 1
    requires Lookup(a, StrKey(path[0])) == Lookup(b, StrKey(path[0]))
    ensures Walk(Arr(a), path) == Walk(Arr(b), path)
  {
  }

  /** `__isset($name)`: top-level key existence only. */
  predicate IsSet(c: Container, name: Key): (r: bool)
    ensures r <==> Lookup(c.attributes, name).Some?
  {
    Exists(Arr(c.attributes), name) == Ok(true)
  }

  /** `__unset($name)`: drops the top-level entry, keeps all others in order. */
  function Unset(c: Container, name: Key): (r: Container)
    ensures r.requiredKeys == c.requiredKeys
    ensures !IsSet(c, name) ==> r == c
    ensures IsSet(c, name) ==>
      exists i :: 0 <= i < |c.attributes| && c.attributes[i].0 == Normalize(name) &&
        r.attributes == c.attributes[..i] + c.attributes[i + 1..]
    ensures WellFormed(c.attributes) ==> WellFormed(r.attributes) && !IsSet(r, name)
    ensures WellFormed(c.attributes) ==> forall k' :: Normalize(k') != Normalize(name) ==>
      Lookup(r.attributes, k') == Lookup(c.attributes, k')
  {
    c.(attributes := Remove(c.attributes, name))
  }

  /** `__get($name)`: a dotted `get` with a `null` default. For a name
      without a dot it is the top-level value, or `null` when absent. */
  function MagicGet(c: Container, name: Key): (r: Result<Value>)
    ensures r.Err? ==> r.error == TypeError
    ensures '.' !in KeyText(name) ==>
      r == Ok(match Lookup(c.attributes, name) case Some(x) => x case None => Null)
  {
    TopLevelGet(c, name, Null);
    Get(c, Some(name), Null)
  }

  /** A key without a dot is read at top level only. */
  lemma TopLevelGet(c: Container, k: Key, default: Value)
    ensures '.' !in KeyText(k) ==>
      Get(c, Some(k), default) == Ok(match Lookup(c.attributes, k) case Some(x) => x case None => default)
  {
    if '.' !in KeyText(k) {
      var t := KeyText(k);
      assert Path(k) == [t];
      NormalizeKeyText(k);
      SameNormalLookup(c.attributes, StrKey(t), k);
      assert [t][1..] == [];
    }
  }

  /** `__set($name, $value)`: a top-level `set`, overwriting in place or
      appending, and touching no other key. */
  function MagicSet(c: Container, name: Key, v: Value): (r: Container)
    ensures r.requiredKeys == c.requiredKeys
    ensures Lookup(r.attributes, name) == Some(v)
    ensures forall k' :: Normalize(k') != Normalize(name) ==> Lookup(r.attributes, k') == Lookup(c.attributes, k')
    ensures WellFormed(c.attributes) ==> WellFormed(r.attributes)
    ensures HasKey(c.attributes, name) ==>
      |r.attributes| == |c.attributes| &&
      forall i :: 0 <= i < |c.attributes| ==> r.attributes[i].0 == c.attributes[i].0
    ensures !HasKey(c.attributes, name) ==> r.attributes == c.attributes + [(Normalize(name), v)]
  {
    Set(c, Some(name), v).value
  }

  /** `__get` of a dotted name follows `get` with a `null` default: a TypeError
      when a segment before the last reaches a non-array, `null` once a segment
      is missing, and the nested value when the last segment is present. */
  lemma MagicGetAlongPath(c: Container, name: Key, i: nat, w: Value)
    requires i < |Path(name)|
    requires Walk(Arr(c.attributes), Path(name)[..i]) == Reached(w)
    ensures !w.Arr? ==> MagicGet(c, name) == Err(TypeError)
    ensures w.Arr? && !HasKey(w.entries, StrKey(Path(name)[i])) ==> MagicGet(c, name) == Ok(Null)
    ensures w.Arr? && i == |Path(name)| - 1 && HasKey(w.entries, StrKey(Path(name)[i])) ==>
      MagicGet(c, name) == Ok(Lookup(w.entries, StrKey(Path(name)[i])).value)
  {
    if !w.Arr? {
      GetThroughScalar(c, name, Null, i, w);
    } else if !HasKey(w.entries, StrKey(Path(name)[i])) {
      GetMissing(c, name, Null, i, w.entries);
    } else if i == |Path(name)| - 1 {
      GetNested(c, name, Null, w.entries, Lookup(w.entries, StrKey(Path(name)[i])).value);
    }
  }

  /** `__set` then `__get` of a dotted name: the write lands at top level but
      the read walks the segments, so the read is the same as before the
      write. */
  lemma MagicSetDottedUnread(c: Container, name: Key, v: Value)
    requires '.' in KeyText(name)
    ensures MagicGet(MagicSet(c, name, v), name) == MagicGet(c, name)
  {
    GetUnaffectedBySet(c, name, v, name, Null);
  }

  /** `toArray()`: the attributes as stored, every key looking up as in the
      container. */
  function ToArray(c: Container): (r: Entries)
    ensures |r| == |c.attributes|
    ensures forall k :: Lookup(r, k) == Lookup(c.attributes, k)
    ensures WellFormed(c.attributes) ==> WellFormed(r)
  {
    c.attributes
  }

  /** A constructed container gives back, as an array, exactly the
      attributes it was built from. */
  lemma ToArrayAfterConstruct(requiredKeys: seq<KeyArg>, attributes: Entries)
    requires Construct(requiredKeys, attributes).Ok?
    ensures ToArray(Construct(requiredKeys, attributes).value) == attributes
  {
  }

  /** The label of each missing key in the exception message. */
  function Labels(keys: seq<KeyArg>): (r: seq<string>)
    ensures |r| == |keys|
  {
    seq(|keys|, i requires 0 <= i < |keys| => ArgText(keys[i]))
  }

  /** The exception message: the labels of the missing keys joined by commas,
      in double quotes, then ` cannot be empty.` and a CR LF. */
  function MissingMessage(missing: seq<KeyArg>): string
  {
    "\"" + Join(Labels(missing), ',') + "\" cannot be empty.\r\n"
  }

  /** The message lists the missing keys in order: splitting its quoted part
      at the commas gives back each key's label (when no label has a comma). */
  lemma MissingMessageLists(missing: seq<KeyArg>)
    requires |missing| > 0
    requires forall i :: 0 <= i < |missing| ==> ',' !in ArgText(missing[i])
    ensures var inner := Join(Labels(missing), ',');
      && MissingMessage(missing) == "\"" + inner + "\" cannot be empty.\r\n"
      && Split(inner, ',') == Labels(missing)
  {
    SplitJoin(Labels(missing), ',');
  }

  /** The loop of `checkMissingKeys` for any membership test `has`: the keys
      for which it answers false, in order; the first failure propagates. */
  function MissingBy(has: KeyArg -> Result<bool>, keys: seq<KeyArg>): Result<seq<KeyArg>>
    decreases |keys|
  {
    if |keys| == 0 then Ok([])
    else
      match has(keys[0])
      case Err(e) => Err(e)
      case Ok(true) => MissingBy(has, keys[1..])
      case Ok(false) =>
        match MissingBy(has, keys[1..])
        case Err(e) => Err(e)
        case Ok(m) => Ok([keys[0]] + m)
  }

  /** The loop fails exactly when some test fails, and otherwise reports only
      keys whose test is false, reporting none exactly when every test holds. */
  lemma {:induction false} MissingBySpec(has: KeyArg -> Result<bool>, keys: seq<KeyArg>)
    ensures var r := MissingBy(has, keys);
      && (r.Err? <==> exists i :: 0 <= i < |keys| && has(keys[i]).Err?)
      && (r.Err? ==> exists i :: 0 <= i < |keys| && has(keys[i]) == Err(r.error))
      && (r.Ok? ==> forall x :: x in r.value ==> x in keys && has(x) == Ok(false))
      && (r.Ok? ==> |r.value| <= |keys|)
      && (r.Ok? ==> (|r.value| == 0 <==> forall i :: 0 <= i < |keys| ==> has(keys[i]) == Ok(true)))
    decreases |keys|
  {
    if |keys| > 0 {
      MissingBySpec(has, keys[1..]);
      assert forall i :: 1 <= i < |keys| ==> keys[i] == keys[1..][i - 1];
    }
  }

  /** Missing keys of a concatenation are the missing keys of each part, in
      the same order. */
  lemma {:induction false} MissingByConcat(has: KeyArg -> Result<bool>, a: seq<KeyArg>, b: seq<KeyArg>)
    requires MissingBy(has, a).Ok? && MissingBy(has, b).Ok?
    ensures MissingBy(has, a + b) == Ok(MissingBy(has, a).value + MissingBy(has, b).value)
    decreases |a|
  {
    var mb := MissingBy(has, b).value;
    if |a| == 0 {
      assert a + b == b;
      assert MissingBy(has, a) == Ok([]);
      assert [] + mb == mb;
    } else {
      var k := a[0];
      var tail := a[1..];
      assert a == [k] + tail;
      assert a + b == [k] + (tail + b);
      MissingByCons(has, k, tail);
      MissingByCons(has, k, tail + b);
      MissingByConcat(has, tail, b);
      var ma := MissingBy(has, tail).value;
      if !has(k).value {
        assert [k] + (ma + mb) == [k] + ma + mb;
      }
    }
  }

  /** One step of the loop of `checkMissingKeys`. */
  lemma MissingByCons(has: KeyArg -> Result<bool>, k: KeyArg, rest: seq<KeyArg>)
    ensures MissingBy(has, [k] + rest) == match has(k)
      case Err(e) => Err(e)
      case Ok(true) => MissingBy(has, rest)
      case Ok(false) => (match MissingBy(has, rest) case Err(e) => Err(e) case Ok(m) => Ok([k] + m))
  {
    assert ([k] + rest)[0] == k;
    assert ([k] + rest)[1..] == rest;
  }

  /** The loop of `checkMissingKeys`: the required keys for which `has` is
      false, in order. A TypeError from `has` propagates. */
  function MissingKeys(c: Container, keys: seq<KeyArg>): (r: Result<seq<KeyArg>>)
    ensures r.Err? <==> exists i :: 0 <= i < |keys| && Has(c, keys[i]).Err?
    ensures r.Err? ==> r.error == TypeError
    ensures r.Ok? ==> forall x :: x in r.value ==> x in keys && Has(c, x) == Ok(false)
    ensures r.Ok? ==> |r.value| <= |keys|
    ensures r.Ok? ==> (|r.value| == 0 <==> forall i :: 0 <= i < |keys| ==> Has(c, keys[i]) == Ok(true))
  {
    var has := k => Has(c, k);
    MissingBySpec(has, keys);
    MissingBy(has, keys)
  }

  /** The report follows `requiredKeys` order: the missing keys of a
      concatenation are those of each part, one after the other. */
  lemma MissingKeysConcat(c: Container, a: seq<KeyArg>, b: seq<KeyArg>)
    requires MissingKeys(c, a).Ok? && MissingKeys(c, b).Ok?
    ensures MissingKeys(c, a + b) == Ok(MissingKeys(c, a).value + MissingKeys(c, b).value)
  {
    MissingByConcat(k => Has(c, k), a, b);
  }

  /** Two membership tests that agree on every listed key report the same
      missing keys. */
  lemma {:induction false} MissingByAgree(f: KeyArg -> Result<bool>, g: KeyArg -> Result<bool>, keys: seq<KeyArg>)
    requires forall i :: 0 <= i < |keys| ==> f(keys[i]) == g(keys[i])
    ensures MissingBy(f, keys) == MissingBy(g, keys)
    decreases |keys|
  {
    if |keys| > 0 {
      assert forall i :: 1 <= i < |keys| ==> keys[i] == keys[1..][i - 1];
      MissingByAgree(f, g, keys[1..]);
    }
  }

  /** Required keys are single keys, and on those the corrected `has` agrees
      with `has`: the missing-key report is the same under either. */
  lemma MissingKeysCorrected(c: Container, keys: seq<KeyArg>)
    requires forall i :: 0 <= i < |keys| ==> keys[i].One?
    ensures MissingBy(k => HasEach(c, k), keys) == MissingKeys(c, keys)
  {
    forall i | 0 <= i < |keys|
      ensures HasEach(c, keys[i]) == Has(c, keys[i])
    {
      HasEachSingleKey(c, keys[i].key);
    }
    MissingByAgree(k => HasEach(c, k), k => Has(c, k), keys);
  }

  /** `checkMissingKeys()`: succeeds when there are no required keys or when
      `has` holds for each; otherwise raises one InvalidArgument naming all
      missing keys. */
  function CheckMissingKeys(c: Container): (r: Result<bool>)
    ensures r.Ok? ==> r.value
    ensures |c.requiredKeys| == 0 ==> r == Ok(true)
    ensures r.Ok? <==> forall i :: 0 <= i < |c.requiredKeys| ==> Has(c, c.requiredKeys[i]) == Ok(true)
    ensures r.Err? ==> (r.error == TypeError ||
      (MissingKeys(c, c.requiredKeys).Ok? && |MissingKeys(c, c.requiredKeys).value| > 0 &&
       r.error == InvalidArgument(MissingMessage(MissingKeys(c, c.requiredKeys).value))))
    ensures r == Err(TypeError) <==> exists i :: 0 <= i < |c.requiredKeys| && Has(c, c.requiredKeys[i]).Err?
  {
    if |c.requiredKeys| == 0 then Ok(true)
    else match MissingKeys(c, c.requiredKeys)
      case Err(e) => Err(e)
      case Ok(m) => if |m| > 0 then Err(InvalidArgument(MissingMessage(m))) else Ok(true)
  }

  /** `new static($attributes)`: stores the attributes as given and runs
      `checkMissingKeys`. A constructed container satisfies every required key. */
  function Construct(requiredKeys: seq<KeyArg>, attributes: Entries): (r: Result<Container>)
    ensures r.Ok? ==> r.value.attributes == attributes && r.value.requiredKeys == requiredKeys
    ensures r.Ok? <==> forall i :: 0 <= i < |requiredKeys| ==>
      Has(Container(requiredKeys, attributes), requiredKeys[i]) == Ok(true)
    ensures r.Err? ==> r.error.TypeError? || r.error.InvalidArgument?
    ensures r.Err? ==> CheckMissingKeys(Container(requiredKeys, attributes)) == Err(r.error)
  {
    var c := Container(requiredKeys, attributes);
    match CheckMissingKeys(c)
    case Ok(_) => Ok(c)
    case Err(e) => Err(e)
  }
}
