/** Worked examples of the container, the parameter extraction and the
    upload naming, each stated for one concrete input. */
module Scenarios {
  import opened Numerals
  import opened Values
  import opened Arrays
  import opened Text
  import opened Attributes
  import Request
  import Upload

  const User: Entries := [(StrKey("name"), Str("Alice")), (StrKey("age"), Int(30))]
  const Profile: Entries := [(StrKey("user"), Arr(User))]

  /** A word that starts with a letter is never an integer key. */
  lemma WordKey(s: string)
    requires |s| > 0 && !IsDigit(s[0]) && s[0] != '-'
    ensures Normalize(StrKey(s)) == StrKey(s)
  {
    assert !AllDigits(Magnitude(s));
  }

  /** Two separator-free pieces joined by the separator split back apart. */
  lemma SplitTwo(a: string, b: string, sep: char)
    requires sep !in a && sep !in b
    ensures Split(a + [sep] + b, sep) == [a, b]
  {
    SplitJoin([a, b], sep);
    assert [a, b][1..] == [b];
  }

  /** `user.<b>` splits into `user` and `b`. */
  lemma UserPath(b: string, k: string)
    requires '.' !in b && k == "user." + b
    ensures Split(k, '.') == ["user", b]
  {
    assert '.' !in "user";
    SplitTwo("user", b, '.');
    assert k == "user" + ['.'] + b;
  }

  /** One step of the dotted walk into an array holding the segment. */
  lemma WalkInto(v: Value, path: seq<string>, x: Value)
    requires |path| > 0 && v.Arr? && Lookup(v.entries, StrKey(path[0])) == Some(x)
    ensures Walk(v, path) == Walk(x, path[1..])
  {
  }

  /** The dotted walk stops at an array lacking the segment. */
  lemma WalkStops(v: Value, path: seq<string>)
    requires |path| > 0 && v.Arr? && !HasKey(v.entries, StrKey(path[0]))
    ensures Walk(v, path) == Absent
  {
  }

  lemma ProfileUser()
    ensures Lookup(Profile, StrKey("user")) == Some(Arr(User))
  {
    WordKey("user");
  }

  lemma UserName()
    ensures Lookup(User, StrKey("name")) == Some(Str("Alice"))
  {
    WordKey("name");
  }

  lemma UserAge()
    ensures Lookup(User, StrKey("age")) == Some(Int(30))
  {
    WordKey("age");
  }

  /** Any word other than `user` is absent from the profile. */
  lemma ProfileLacks(s: string)
    requires |s| > 0 && !IsDigit(s[0]) && s[0] != '-' && s != "user"
    ensures !HasKey(Profile, StrKey(s))
  {
    WordKey(s);
  }

  /** Any word other than `name` and `age` is absent from the user. */
  lemma UserLacks(s: string)
    requires |s| > 0 && !IsDigit(s[0]) && s[0] != '-' && s != "name" && s != "age"
    ensures !HasKey(User, StrKey(s))
  {
    WordKey(s);
  }

  lemma WalkUserName()
    ensures Walk(Arr(Profile), Path(StrKey("user.name"))) == Reached(Str("Alice"))
  {
    UserPath("name", "user.name");
    ProfileUser();
    UserName();
    WalkInto(Arr(Profile), ["user", "name"], Arr(User));
    WalkInto(Arr(User), ["name"], Str("Alice"));
    assert ["user", "name"][1..] == ["name"];
    assert ["name"][1..] == [];
  }

  lemma WalkUserAge()
    ensures Walk(Arr(Profile), Path(StrKey("user.age"))) == Reached(Int(30))
  {
    UserPath("age", "user.age");
    ProfileUser();
    UserAge();
    WalkInto(Arr(Profile), ["user", "age"], Arr(User));
    WalkInto(Arr(User), ["age"], Int(30));
    assert ["user", "age"][1..] == ["age"];
    assert ["age"][1..] == [];
  }

  lemma WalkUserEmail()
    ensures Walk(Arr(Profile), Path(StrKey("user.email"))) == Absent
  {
    UserPath("email", "user.email");
    ProfileUser();
    UserLacks("email");
    WalkInto(Arr(Profile), ["user", "email"], Arr(User));
    WalkStops(Arr(User), ["email"]);
    assert ["user", "email"][1..] == ["email"];
  }

  lemma WalkUserMissing()
    ensures Walk(Arr(Profile), Path(StrKey("user.missing"))) == Absent
  {
    UserPath("missing", "user.missing");
    ProfileUser();
    UserLacks("missing");
    WalkInto(Arr(Profile), ["user", "missing"], Arr(User));
    WalkStops(Arr(User), ["missing"]);
    assert ["user", "missing"][1..] == ["missing"];
  }

  lemma WalkArrayText()
    ensures Walk(Arr(Profile), Split("Array", '.')) == Absent
  {
    ProfileLacks("Array");
    assert '.' !in "Array";
    WalkStops(Arr(Profile), ["Array"]);
  }

  const Required: seq<KeyArg> := [One(StrKey("user.name"))]

  lemma ProfileHasName()
    ensures Has(Container(Required, Profile), One(StrKey("user.name"))) == Ok(true)
  {
    WalkUserName();
    HasSingleKey(Container(Required, Profile), StrKey("user.name"));
  }

  /** The container built from `{"user": {"name": "Alice", "age": 30}}` with
      the required key `user.name` is constructed. */
  lemma ProfileConstructs()
    ensures Construct(Required, Profile) == Ok(Container(Required, Profile))
  {
    ProfileHasName();
    assert Required[0] == One(StrKey("user.name"));
  }

  /** Dotted reads find the nested value or fall back to the default. */
  lemma ProfileGets()
    ensures Get(Container(Required, Profile), Some(StrKey("user.name")), Null) == Ok(Str("Alice"))
    ensures Get(Container(Required, Profile), Some(StrKey("user.email")), Str("n/a")) == Ok(Str("n/a"))
  {
    WalkUserName();
    WalkUserEmail();
  }

  /** `has` of a nested path that resolves is true. */
  lemma ProfileHasAge()
    ensures Has(Container(Required, Profile), One(StrKey("user.age"))) == Ok(true)
  {
    WalkUserAge();
    HasSingleKey(Container(Required, Profile), StrKey("user.age"));
  }

  /** `has` of a list holding a missing path is false. */
  lemma ProfileHasList()
    ensures Has(Container(Required, Profile), Many([StrKey("user.name"), StrKey("user.missing")])) == Ok(false)
  {
    ProfileLacks("user.name");
    WalkArrayText();
    var ks := [StrKey("user.name"), StrKey("user.missing")];
    assert !HasKey(Profile, ks[0]);
    HasListWalksArrayText(Container(Required, Profile), ks);
  }

  /** An empty container with the required key `a.b` is refused, and the
      message names the key. */
  lemma EmptyScenario()
    ensures Construct([One(StrKey("a.b"))], []) == Err(InvalidArgument("\"a.b\" cannot be empty.\r\n"))
  {
    var x := One(StrKey("a.b"));
    var c := Container([x], []);
    assert Has(c, x) == Ok(false);
    var m := MissingKeys(c, [x]);
    assert m.Ok? && |m.value| == 1;
    assert m.value[0] in m.value;
    assert m.value[0] in [x];
    assert m.value == [x];
    assert Labels([x]) == ["a.b"];
    assert Join(["a.b"], ',') == "a.b";
    assert MissingMessage([x]) == "\"a.b\" cannot be empty.\r\n";
  }

  /** The magic hooks disagree on a dotted name: `__get` walks the path while
      `__isset` checks the top level only, and `__set` writes a top-level key
      that the dotted `__get` then never reads. */
  lemma MagicAsymmetry(v: Value)
    ensures var c := Container([], Profile);
      && !IsSet(c, StrKey("user.name"))
      && MagicGet(c, StrKey("user.name")) == Ok(Str("Alice"))
      && IsSet(MagicSet(c, StrKey("user.name"), v), StrKey("user.name"))
      && MagicGet(MagicSet(c, StrKey("user.name"), v), StrKey("user.name")) == Ok(Str("Alice"))
  {
    MagicIssetTopLevel();
    MagicGetWalks();
    MagicSetTopLevel(v);
    MagicGetIgnoresSet(v);
  }

  lemma MagicIssetTopLevel()
    ensures !IsSet(Container([], Profile), StrKey("user.name"))
  {
    ProfileLacks("user.name");
  }

  lemma MagicGetWalks()
    ensures MagicGet(Container([], Profile), StrKey("user.name")) == Ok(Str("Alice"))
  {
    WalkUserName();
  }

  lemma MagicSetTopLevel(v: Value)
    ensures IsSet(MagicSet(Container([], Profile), StrKey("user.name"), v), StrKey("user.name"))
  {
  }

  lemma MagicGetIgnoresSet(v: Value)
    ensures MagicGet(MagicSet(Container([], Profile), StrKey("user.name"), v), StrKey("user.name")) == Ok(Str("Alice"))
  {
    var k := StrKey("user.name");
    var c := Container([], Profile);
    UserPath("name", "user.name");
    WordKey("user");
    WordKey("user.name");
    assert Path(k)[0] == "user";
    GetUnaffectedBySet(c, k, v, k, Null);
    MagicGetWalks();
  }

  /** `has` of a list checks the text `Array` instead of each key: a path that
      `has` accepts alone is refused inside a list, while the corrected
      reading accepts it. */
  lemma HasNameAlone()
    ensures Has(Container([], Profile), One(StrKey("user.name"))) == Ok(true)
  {
    WalkUserName();
    HasSingleKey(Container([], Profile), StrKey("user.name"));
  }

  lemma HasNameInList()
    ensures Has(Container([], Profile), Many([StrKey("user.name")])) == Ok(false)
  {
    var k := StrKey("user.name");
    ProfileLacks("user.name");
    WalkArrayText();
    assert [k][0] == k;
    HasListWalksArrayText(Container([], Profile), [k]);
  }

  lemma HasEachNameInList()
    ensures HasEach(Container([], Profile), Many([StrKey("user.name")])) == Ok(true)
  {
    var k := StrKey("user.name");
    HasNameAlone();
    HasEachSingleKey(Container([], Profile), k);
    assert KeyList(Many([k])) == KeyList(One(k));
  }

  lemma HasListCounterexample()
    ensures var c := Container([], Profile);
      && Has(c, One(StrKey("user.name"))) == Ok(true)
      && Has(c, Many([StrKey("user.name")])) == Ok(false)
      && HasEach(c, Many([StrKey("user.name")])) == Ok(true)
  {
    HasNameAlone();
    HasNameInList();
    HasEachNameInList();
  }

  const Body: Entries := [(StrKey("q"), Str("x"))]
  const Specs: seq<(Key, Request.Spec)> := [(IntKey(0), Request.Spec("q", Str(""))), (IntKey(1), Request.Spec("n/b", Bool(false)))]

  lemma ParseTyped()
    ensures Request.ParseName("n/b") == ("n", Some("b"))
  {
    var a := "n";
    var b := "b";
    assert '/' !in a && '/' !in b;
    SplitTwo(a, b, '/');
    assert "n/b" == a + ['/'] + b;
    assert "n/b"[0] != '/';
  }

  lemma ParamPresent(rt: Request.Runtime)
    ensures Request.Param(rt, Body, Specs[0].1) == Ok(("q", Str("x")))
  {
    WordKey("q");
    assert '/' !in "q";
  }

  lemma ParamMissing(rt: Request.Runtime)
    ensures Request.Param(rt, Body, Specs[1].1) == Ok(("n", Bool(false)))
  {
    WordKey("q");
    WordKey("n");
    ParseTyped();
    assert !HasKey(Body, StrKey("n"));
  }

  /** `$params` as written: `[['q', ''], ['n/b', false]]`. */
  const RawSpecs: Entries := [
    (IntKey(0), Arr([(IntKey(0), Str("q")), (IntKey(1), Str(""))])),
    (IntKey(1), Arr([(IntKey(0), Str("n/b")), (IntKey(1), Bool(false))]))]

  lemma SpecRead(name: string, default: Value)
    requires !default.Null?
    ensures Request.ReadSpec(Arr([(IntKey(0), Str(name)), (IntKey(1), default)])) == Some(Request.Spec(name, default))
  {
    var e: Entries := [(IntKey(0), Str(name)), (IntKey(1), default)];
    assert Find(e, IntKey(0)) == Some(0);
    assert Find(e, IntKey(1)) == Some(1);
  }

  /** Reading the raw `$params` gives the two specs. */
  lemma RawSpecsRead()
    ensures Request.ReadSpecs(RawSpecs) == Some(Specs)
  {
    SpecRead("q", Str(""));
    SpecRead("n/b", Bool(false));
    var r := Request.ReadSpecs(RawSpecs);
    assert r.Some? && |r.value| == 2;
    assert r.value[0] == Specs[0] && r.value[1] == Specs[1];
    assert r.value == Specs;
  }

  /** The two specs resolve, in order, under their parsed names. */
  const Resolved: seq<(Key, Value)> := [(StrKey("q"), Str("x")), (StrKey("n"), Bool(false))]

  lemma PairsScenario(rt: Request.Runtime)
    ensures Request.Pairs(rt, Body, Specs, false) == Ok(Resolved)
  {
    ParamPresent(rt);
    ParamMissing(rt);
    var r := Request.Pairs(rt, Body, Specs, false);
    assert r.Ok? && |r.value| == 2;
    assert r.value[0] == Resolved[0];
    assert r.value[1] == Resolved[1];
    assert r.value == Resolved;
  }

  lemma ResolvedAssigned()
    ensures Request.AssignAll(Resolved) == Resolved
  {
    WordKey("q");
    WordKey("n");
    Request.AssignAllDistinct(Resolved);
  }

  /** `postMore([['q', ''], ['n/b', false]])` on a body holding only `q`: the
      present value is taken as is, the missing one yields its default uncast,
      each under its parsed name. */
  lemma ParamsScenario(rt: Request.Runtime)
    ensures Request.ReadSpecs(RawSpecs) == Some(Specs)
    ensures Request.DoMore(rt, Body, Specs, false) == Ok([(StrKey("q"), Str("x")), (StrKey("n"), Bool(false))])
  {
    RawSpecsRead();
    PairsScenario(rt);
    ResolvedAssigned();
  }

  /** A NaN bit pattern, and a one-entry array holding it. */
  const NaN: bv64 := 0x7FF8_0000_0000_0000
  const NaNList: Value := Arr([(IntKey(0), Float(NaN))])
  const SharedSpecs: seq<(Key, Request.Spec)> := [(IntKey(0), Request.Spec("x/s", NaNList))]

  lemma ParseTypedX()
    ensures Request.ParseName("x/s") == ("x", Some("s"))
  {
    var a := "x";
    var b := "s";
    assert '/' !in a && '/' !in b;
    SplitTwo(a, b, '/');
    assert "x/s" == a + ['/'] + b;
    assert "x/s"[0] != '/';
  }

  lemma SharedParam(rt: Request.Runtime)
    ensures Request.Param(rt, [], SharedSpecs[0].1) == Ok(("x", NaNList))
  {
    ParseTypedX();
    Request.MissingParamYieldsDefault(rt, [], SharedSpecs[0].1);
  }

  /** `doMore([], [['x/s', [NAN]]], false)`: `$data` holds the default array
      itself, so `===` holds although the array holds a NaN, and the `'s'`
      cast, which would refuse an array, never runs. */
  lemma SharedDefaultScenario(rt: Request.Runtime)
    ensures Request.DoMore(rt, [], SharedSpecs, false) == Ok([(StrKey("x"), NaNList)])
  {
    SharedParam(rt);
    var r := Request.Pairs(rt, [], SharedSpecs, false);
    assert r.Ok? && |r.value| == 1 && r.value[0] == (StrKey("x"), NaNList);
    assert r.value == [(StrKey("x"), NaNList)];
    WordKey("x");
    Request.AssignAllDistinct(r.value);
  }

  /** `$a[] = $v` uses 0 on an array without integer keys, and the largest
      integer key plus one otherwise, negative keys included. */
  lemma PushScenario(v: Value)
    ensures Push([], v) == Ok([(IntKey(0), v)])
    ensures Push([(StrKey("a"), Null)], v) == Ok([(StrKey("a"), Null), (IntKey(0), v)])
    ensures Push([(IntKey(-5), Null)], v) == Ok([(IntKey(-5), Null), (IntKey(-4), v)])
  {
    var a: Entries := [(StrKey("a"), Null)];
    var n: Entries := [(IntKey(-5), Null)];
    var ra := Push(a, v);
    assert ra.Ok? && ra.value[..1] == a && ra.value[1] == (IntKey(0), v);
    assert ra.value == a + [(IntKey(0), v)];
    var rn := Push(n, v);
    assert rn.Ok? && rn.value[..1] == n && rn.value[1] == (IntKey(-4), v);
    assert rn.value == n + [(IntKey(-4), v)];
    assert a + [(IntKey(0), v)] == [(StrKey("a"), Null), (IntKey(0), v)];
    assert n + [(IntKey(-4), v)] == [(IntKey(-5), Null), (IntKey(-4), v)];
  }

  const Root := "/srv"
  const Day := "20240101"
  const Defaults := Upload.DefaultSettings(Root, Day)
  const Photo := Upload.UploadedFile(true, "JPG", "image/jpeg", "photo.JPG", 1024)

  lemma PhotoExtension()
    ensures Upload.Extension(Photo) == "jpg"
    ensures Upload.Vet("jpg", Defaults.accept) == Ok("jpg")
  {
    assert Truthy(Str("JPG"));
    assert Lower("JPG") == "jpg";
    assert "jpg" in Upload.DefaultAccept;
  }

  /** A `JPG` photo under the default settings is stored with a lowercase
      extension under the dated directory, and its URL is under `/app/admin/`. */
  lemma UploadScenario(time: nat, rand: nat)
    ensures var r := Upload.Base(Defaults, Some(Photo), time, rand, None);
      var relativePath := "upload/files/" + Day + "/" + Upload.StoredName(time, rand, "jpg");
      && r.Ok?
      && r.value.ext == "jpg"
      && r.value.url == "/app/admin/" + relativePath
      && r.value.realpath == Root + "/plugin/admin/public/" + relativePath
  {
    PhotoExtension();
    Upload.DefaultRelativeDirTrimmed(Root, Day);
    Upload.DefaultUrlPrefixKept(Root, Day);
    Upload.DefaultBaseDirKept(Root, Day);
    Upload.BaseNamesFile(Defaults, Photo, time, rand, None);
  }
}
