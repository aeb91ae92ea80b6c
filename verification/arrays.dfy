/** PHP's ordered arrays as sequences of (key, value) entries, with the
    accesses the traits perform: `array_key_exists`, `$a[$k]`, `$a[$k] = $v`,
    `$a[] = $v` and `unset($a[$k])`. Every access normalises its key first,
    as PHP does. */
module Arrays {
  import opened Numerals
  import opened Values

  type Entries = seq<(Key, Value)>

  /** What every PHP array satisfies: keys are stored normalised and are distinct. */
  predicate WellFormed(e: Entries)
  {
    && (forall i :: 0 <= i < |e| ==> IsNormal(e[i].0))
    && (forall i, j :: 0 <= i < j < |e| ==> e[i].0 != e[j].0)
  }

  /** Position of the entry stored under the (already normalised) key `k`. */
  function Find(e: Entries, k: Key): (r: Option<nat>)
    ensures r.Some? ==> r.value < |e| && e[r.value].0 == k
    ensures r.Some? ==> forall j :: 0 <= j < r.value ==> e[j].0 != k
    ensures r.None? ==> forall j :: 0 <= j < |e| ==> e[j].0 != k
  {
    if |e| == 0 then None
    else if e[0].0 == k then Some(0)
    else match Find(e[1..], k)
      case None => None
      case Some(j) => Some(j + 1)
  }

  /** `array_key_exists($k, $e)`. */
  predicate HasKey(e: Entries, k: Key)
  {
    Find(e, Normalize(k)).Some?
  }

  /** `$e[$k]`, or `None` when the key is absent. */
  function Lookup(e: Entries, k: Key): (r: Option<Value>)
    ensures r.Some? <==> HasKey(e, k)
    ensures r.Some? ==> exists i :: 0 <= i < |e| && e[i] == (Normalize(k), r.value)
  {
    match Find(e, Normalize(k))
    case None => None
    case Some(i) => Some(e[i].1)
  }

  /** In a well-formed array each entry is what its own key looks up. */
  lemma LookupEntry(e: Entries, i: nat)
    requires WellFormed(e) && i < |e|
    ensures Lookup(e, e[i].0) == Some(e[i].1)
  {
    assert Find(e, e[i].0) == Some(i);
  }

  /** `$e[$k] = $v`: overwrite in place when the key exists, otherwise append. */
  function Assign(e: Entries, k: Key, v: Value): (r: Entries)
    ensures Lookup(r, k) == Some(v)
    ensures forall k' :: Normalize(k') != Normalize(k) ==> Lookup(r, k') == Lookup(e, k')
    ensures HasKey(e, k) ==> |r| == |e| && forall i :: 0 <= i < |e| ==> r[i].0 == e[i].0
    ensures !HasKey(e, k) ==> r == e + [(Normalize(k), v)]
    ensures forall i :: 0 <= i < |e| && e[i].0 != Normalize(k) ==> r[i] == e[i]
    ensures WellFormed(e) ==> WellFormed(r)
  {
    var nk := Normalize(k);
    match Find(e, nk)
    case Some(i) =>
      var r := e[i := (nk, v)];
      FindUnchanged(e, r, nk);
      r
    case None =>
      var r := e + [(nk, v)];
      FindAfterAppend(e, nk, v);
      r
  }

  /** Replacing one entry by an entry with the same key leaves every lookup of
      another key where it was. */
  lemma {:induction false} FindUnchanged(e: Entries, r: Entries, k: Key)
    requires |r| == |e|
    requires forall i :: 0 <= i < |e| ==> r[i].0 == e[i].0
    requires forall i :: 0 <= i < |e| && e[i].0 != k ==> r[i] == e[i]
    ensures forall k' :: Find(r, k') == Find(e, k')
    decreases |e|
  {
    if |e| > 0 {
      FindUnchanged(e[1..], r[1..], k);
      forall k' ensures Find(r, k') == Find(e, k') {
        assert Find(r[1..], k') == Find(e[1..], k');
      }
    }
  }

  lemma {:induction false} FindAfterAppend(e: Entries, k: Key, v: Value)
    requires Find(e, k).None?
    ensures Find(e + [(k, v)], k) == Some(|e|)
    ensures forall k' :: k' != k ==> Find(e + [(k, v)], k') == Find(e, k')
    decreases |e|
  {
    var r := e + [(k, v)];
    if |e| > 0 {
      assert r[1..] == e[1..] + [(k, v)];
      FindAfterAppend(e[1..], k, v);
    }
  }

  /** Largest integer key, if any. */
  function MaxIntKey(e: Entries): (r: Option<Int64>)
    ensures r.None? <==> forall i :: 0 <= i < |e| ==> !e[i].0.IntKey?
    ensures r.Some? ==> exists i :: 0 <= i < |e| && e[i].0 == IntKey(r.value)
    ensures r.Some? ==> forall i :: 0 <= i < |e| && e[i].0.IntKey? ==> e[i].0.i <= r.value
  {
    if |e| == 0 then None
    else
      var rest := MaxIntKey(e[1..]);
      assert forall i :: 1 <= i < |e| ==> e[i] == e[1..][i - 1];
      match e[0].0
      case StrKey(_) => rest
      case IntKey(n) =>
        match rest
        case None => Some(n)
        case Some(m) => Some(if n > m then n else m)
  }

  /** The index `$e[] = $v` uses: one past the largest integer key, or 0 when
      there is none. */
  function NextIndex(e: Entries): int
  {
    match MaxIntKey(e)
    case None => 0
    case Some(m) => m + 1
  }

  /** `$e[] = $v`. PHP refuses the append when the next index would pass the
      largest 64-bit integer. */
  function Push(e: Entries, v: Value): (r: Result<Entries>)
    ensures r.Err? <==> exists i :: 0 <= i < |e| && e[i].0 == IntKey(IntMax)
    ensures r.Err? ==> r.error == NextElementOccupied
    ensures r.Ok? ==> |r.value| == |e| + 1 && r.value[..|e|] == e && r.value[|e|].1 == v
    ensures r.Ok? ==> r.value[|e|].0.IntKey? && !HasKey(e, r.value[|e|].0)
    ensures r.Ok? ==> forall i :: 0 <= i < |e| && e[i].0.IntKey? ==> e[i].0.i < r.value[|e|].0.i
    ensures r.Ok? && (forall i :: 0 <= i < |e| ==> !e[i].0.IntKey?) ==> r.value[|e|].0 == IntKey(0)
    ensures r.Ok? && (exists i :: 0 <= i < |e| && e[i].0.IntKey?) ==>
      exists i :: 0 <= i < |e| && e[i].0 == IntKey(r.value[|e|].0.i - 1)
    ensures r.Ok? && WellFormed(e) ==> WellFormed(r.value)
  {
    var n := NextIndex(e);
    if n > IntMax then Err(NextElementOccupied)
    else
      var r := e + [(IntKey(n), v)];
      assert Find(e, IntKey(n)).None?;
      Ok(r)
  }

  /** `unset($e[$k])`: the entry under the key disappears, nothing else moves. */
  function Remove(e: Entries, k: Key): (r: Entries)
    ensures !HasKey(e, k) ==> r == e
    ensures HasKey(e, k) ==> exists i :: 0 <= i < |e| && e[i].0 == Normalize(k) && r == e[..i] + e[i + 1..]
    ensures WellFormed(e) ==> WellFormed(r) && !HasKey(r, k)
    ensures WellFormed(e) ==> forall k' :: Normalize(k') != Normalize(k) ==> Lookup(r, k') == Lookup(e, k')
  {
    match Find(e, Normalize(k))
    case None => e
    case Some(i) =>
      var r := e[..i] + e[i + 1..];
      RemoveLookups(e, i, r);
      r
  }

  /** Position in `e` of the entry at position `j` of `e` without entry `i`. */
  function Skip(i: nat, j: nat): nat
  {
    if j < i then j else j + 1
  }

  lemma RemoveLookups(e: Entries, i: nat, r: Entries)
    requires i < |e| && r == e[..i] + e[i + 1..]
    ensures WellFormed(e) ==> WellFormed(r) && Find(r, e[i].0).None?
    ensures WellFormed(e) ==> forall k' :: Normalize(k') != e[i].0 ==> Lookup(r, k') == Lookup(e, k')
  {
    assert forall j :: 0 <= j < |r| ==> r[j] == e[Skip(i, j)];
    if WellFormed(e) {
      RemoveKeepsWellFormed(e, i, r);
      forall k' | Normalize(k') != e[i].0
        ensures Lookup(r, k') == Lookup(e, k')
      {
        RemoveLookupOther(e, i, r, k');
      }
    }
  }

  lemma RemoveKeepsWellFormed(e: Entries, i: nat, r: Entries)
    requires i < |e| && |r| == |e| - 1 && WellFormed(e)
    requires forall j :: 0 <= j < |r| ==> r[j] == e[Skip(i, j)]
    ensures WellFormed(r) && Find(r, e[i].0).None?
  {
    forall j, k | 0 <= j < k < |r|
      ensures r[j].0 != r[k].0
    {
      assert r[j] == e[Skip(i, j)] && r[k] == e[Skip(i, k)];
    }
    forall j | 0 <= j < |r|
      ensures IsNormal(r[j].0) && r[j].0 != e[i].0
    {
      assert r[j] == e[Skip(i, j)];
    }
  }

  lemma RemoveLookupOther(e: Entries, i: nat, r: Entries, nk: Key)
    requires i < |e| && |r| == |e| - 1 && WellFormed(e) && WellFormed(r)
    requires forall j :: 0 <= j < |r| ==> r[j] == e[Skip(i, j)]
    requires Normalize(nk) != e[i].0
    ensures Lookup(r, nk) == Lookup(e, nk)
  {
    match Find(e, Normalize(nk))
    case None => RemoveLookupAbsent(e, i, r, nk);
    case Some(p) => RemoveLookupPresent(e, i, r, nk, p);
  }

  lemma RemoveLookupAbsent(e: Entries, i: nat, r: Entries, nk: Key)
    requires i < |e| && |r| == |e| - 1
    requires forall j :: 0 <= j < |r| ==> r[j] == e[Skip(i, j)]
    requires Find(e, Normalize(nk)).None?
    ensures Lookup(r, nk) == Lookup(e, nk)
  {
    forall j | 0 <= j < |r|
      ensures r[j].0 != Normalize(nk)
    {
      assert r[j] == e[Skip(i, j)];
    }
  }

  lemma RemoveLookupPresent(e: Entries, i: nat, r: Entries, nk: Key, p: nat)
    requires i < |e| && |r| == |e| - 1 && WellFormed(e) && WellFormed(r)
    requires forall j :: 0 <= j < |r| ==> r[j] == e[Skip(i, j)]
    requires Normalize(nk) != e[i].0
    requires Find(e, Normalize(nk)) == Some(p)
    ensures Lookup(r, nk) == Lookup(e, nk)
  {
    var key := Normalize(nk);
    assert e[p].0 == key && p != i;
    var q := if p < i then p else p - 1;
    assert Skip(i, q) == p;
    assert r[q] == e[p];
    assert Normalize(key) == key;
    LookupEntry(r, q);
    LookupEntry(e, p);
    SameNormalLookup(r, key, nk);
    SameNormalLookup(e, key, nk);
  }

  /** Keys with the same normal form look up the same entry. */
  lemma SameNormalLookup(e: Entries, a: Key, b: Key)
    requires Normalize(a) == Normalize(b)
    ensures Lookup(e, a) == Lookup(e, b)
  {
  }
}
