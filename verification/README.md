# ledc-webman traits in Dafny

This project models the three traits of `ledc/webman` that hold pure logic.
Each trait is modelled as values and pure functions.

- `HasAttributes` is an attribute container backed by a PHP array. It has:
  - dotted-path reads (`get`);
  - an existence test (`has`);
  - top-level writes (`set`);
  - the magic property hooks;
  - a check of required keys when the container is constructed (`checkMissingKeys`).
- `HasRequest` supplies `doMore` and `typeCast`. They resolve a list of parameter specs against a source array, cast values by an optional `/type` suffix, and return a name-keyed or index-keyed array.
- `HasUpload` supplies the pure part of `base`:
  - normalising the storage directory and the URL prefix;
  - deriving the extension and checking it against the denylist and the allowlist;
  - naming the stored file as hex of `pack('Nn', time, rand)`;
  - assembling the returned record.

  It also supplies the default getters.

The PHP runtime rules these traits rely on are modelled too:

- An array is an ordered sequence of (key, value) entries.
- Keys are normalised: `"12"` becomes the integer key 12, while `"012"` and `"-0"` stay strings.
- `$a[] = $v` appends at the largest integer key plus one, or at 0 when there is no integer key, as PHP 8.3 and later do. It fails past the 64-bit maximum.
- `unset` removes one entry and keeps the order of the rest.
- `array_key_exists` takes a typed `array` parameter, so passing any other value is a TypeError.
- `===` compares floats by value: a NaN float is never identical to itself, and 0.0 is identical to -0.0. Two arrays are compared entry by entry, but one stored array is identical to itself even when it holds a NaN.

Modules, one per file:

- `Text` (text.dfy): `explode`/`implode`, `trim`/`rtrim`, `strtolower`.
- `Numerals` (numerals.dfy): decimal text of integers, big-endian packing and `bin2hex`.
- `Values` (values.dfy): PHP values, keys, errors, key normalisation, truthiness, `===`.
- `Arrays` (arrays.dfy): lookup, assignment, append and removal on ordered arrays.
- `Attributes` (attributes.dfy): the `HasAttributes` trait.
- `Request` (request.dfy): `doMore` and `typeCast`.
- `Upload` (upload.dfy): the pure part of `HasUpload::base` and the default getters.
- `Scenarios` (scenarios.dfy): concrete worked examples.

The container is a value, so every mutator returns the new container.
An exception is an `Err` result.
Inputs that PHP takes from the outside world are explicit parameters:

- the clock (`time`);
- the random number (`rand`);
- the uploaded file's metadata;
- what `getimagesize` reports;
- the conversions `(int)`, `(float)`, `(string)` of a float, and `(array)` of an object. These are a `Request.Runtime` record of uninterpreted functions.

### Behaviour worth knowing

- **`get` and `has` raise TypeError on a walk through a scalar.** `exists` has a typed `array` parameter. A dotted path that reaches a non-array before its last segment therefore raises a TypeError (`Attributes.GetThroughScalar`, `Attributes.WalkThroughScalar`).
- **The `s` cast raises InvalidArgumentException.** On a non-scalar the code throws InvalidArgumentException with the message `variable type error：` followed by the `gettype` name (`Request.TypeCast`).
- **Write-then-read holds only for keys without a dot.** `get` always splits its key at the dots (`Attributes.GetAfterSet`). For any dotted key, `__set` writes a top-level entry that `__get` never reads, so `__get` answers as it did before the write (`Attributes.MagicSetDottedUnread`, with a concrete case in `Scenarios.MagicAsymmetry`).
- **`has` and `get` can disagree only on a top-level key that contains a dot.** `has` finds a top-level key such as `"a.b"` directly, while `get` walks `a` then `b`. For every other key the two agree (`Attributes.HasAgreesWithGet`).
- **`has` with a list argument walks the text `Array`.** Each key of the list that is not a top-level key is checked by walking `"Array"` instead of the key itself (see Findings).
- **Empty extensions and prefixes use PHP truthiness.** The string `"0"` counts as empty as well as `""` (`Upload.Extension`, `Upload.UrlPrefix`).
- **A missing parameter's default is never cast, unless it is a NaN float.** `$data` then holds the default itself, and `===` on one stored array, string or object is true before any element is compared (`Request.MissingParamYieldsDefault`, `Scenarios.SharedDefaultScenario`).

## Model

| member | source | states |
|---|---|---|
| Attributes.Exists | src/Traits/HasAttributes.php:161-164 | true exactly for an array holding the key; any non-array argument is a TypeError |
| Attributes.Walk | src/Traits/HasAttributes.php:128-135 | an empty path reaches the value itself; a non-array with segments left is refused; an array lacking the next segment ends the walk as absent |
| Attributes.Get | src/Traits/HasAttributes.php:123-137 | a null key returns the whole attribute array; the only failure is a TypeError |
| Attributes.GetNested | src/Traits/HasAttributes.php:128-136 | when every segment but the last resolves to an array that holds the last segment, get returns the value stored there |
| Attributes.GetMissing | src/Traits/HasAttributes.php:130-133 | when the walk reaches an array that lacks the next segment, get returns the default |
| Attributes.GetThroughScalar | src/Traits/HasAttributes.php:130-131 | when the walk reaches a non-array before the last segment, get fails with a TypeError |
| Attributes.WalkConcat | src/Traits/HasAttributes.php:130-135 | walking a path `a + b` is walking `a`, then continuing along `b` from where it stopped |
| Attributes.WalkNested | src/Traits/HasAttributes.php:130-135 | when every prefix segment resolves to an array holding the last segment, the walk reaches that value |
| Attributes.WalkMissingSegment | src/Traits/HasAttributes.php:131-133 | a segment missing from the array reached so far ends the whole walk as absent |
| Attributes.WalkThroughScalar | src/Traits/HasAttributes.php:131 | reaching a non-array before the last segment makes the whole walk fail |
| Attributes.HasEvery | src/Traits/HasAttributes.php:74-87 | the key loop is true iff every key is top-level or the dotted walk resolves; false iff some key is missing and the walk stops; a TypeError iff some key is missing and the walk hits a non-array |
| Attributes.Has | src/Traits/HasAttributes.php:59-90 | false for empty attributes, a null key or an empty list; its only failure is a TypeError |
| Attributes.HasSingleKey | src/Traits/HasAttributes.php:74-86 | for one key, has is true iff the key is top-level or its dotted path resolves; it fails iff the key is not top-level and the walk meets a non-array |
| Attributes.HasAgreesWithGet | src/Traits/HasAttributes.php:59-137 | unless the key is a top-level key containing a dot, has is true iff get succeeds and its result does not depend on the default; has fails iff get fails |
| Attributes.HasListWalksArrayText | src/Traits/HasAttributes.php:80-86 | for a list with a key missing at top level, the result is decided by walking the single segment `Array` |
| Attributes.HasEachSingleKey | src/Traits/HasAttributes.php:74-87 | the corrected has agrees with has on every single key |
| Attributes.HasEach | src/Traits/HasAttributes.php:59-87 | the corrected has is false for empty attributes, a null key or an empty list, like has |
| Attributes.HasEachIsConjunction | src/Traits/HasAttributes.php:74-87 | the corrected has of a list holds iff has holds for each key of the list on its own |
| Attributes.Set | src/Traits/HasAttributes.php:145-153 | a key is stored normalised: in place if present (key order kept), appended otherwise; lookups of other keys are unchanged; a null key fails only when the 64-bit maximum is taken, and otherwise appends at 0 when there is no integer key, else at one past the largest integer key; well-formedness is kept |
| Attributes.GetAfterSet | src/Traits/HasAttributes.php:145-153 | after set(k, v), get(k) returns v for every key without a dot |
| Attributes.GetUnaffectedBySet | src/Traits/HasAttributes.php:145-153 | set leaves every get whose first segment names a different key unchanged |
| Attributes.Unset | src/Traits/HasAttributes.php:189-192 | the key is gone afterwards; a present key's entry is cut out with the rest kept in order; a missing key leaves the container as it was; every other key looks up as before |
| Attributes.IsSet | src/Traits/HasAttributes.php:180-183 | `__isset` is true iff the name is a top-level key; no dotted walk |
| Attributes.MagicGet | src/Traits/HasAttributes.php:199-202 | `__get` fails only with TypeError; for a name without a dot it is the top-level value, or null when absent |
| Attributes.MagicGetAlongPath | src/Traits/HasAttributes.php:199-202 | for a dotted name, `__get` is a TypeError when a segment before the last reaches a non-array, null once a segment is missing, and the nested value when the last segment is present |
| Attributes.MagicSetDottedUnread | src/Traits/HasAttributes.php:199-212 | for every dotted name, `__get` after `__set` of that name answers as before the write |
| Attributes.TopLevelGet | src/Traits/HasAttributes.php:123-137 | get of a key without a dot is its top-level value, or the default when absent |
| Attributes.ToArray | src/Traits/HasAttributes.php:36-39 | the returned array has the same size and the same lookups as the attributes, and is well-formed when they are |
| Attributes.ToArrayAfterConstruct | src/Traits/HasAttributes.php:27-39 | a constructed container returns as an array exactly the attributes it was built from |
| Attributes.MagicSet | src/Traits/HasAttributes.php:209-212 | `__set` makes the name look up to the value, keeps every other key's lookup and the required keys, overwrites an existing key in place and appends a new one at the end, and keeps the attributes well formed |
| Attributes.MissingBySpec | src/Traits/HasAttributes.php:102-107 | the missing-key loop fails iff some test fails, with that test's error; it reports only keys of the list whose test is false; it reports none iff every test holds |
| Attributes.MissingByConcat | src/Traits/HasAttributes.php:103-107 | the missing keys of a concatenation are those of each part, in order |
| Attributes.MissingKeys | src/Traits/HasAttributes.php:102-107 | with `has` as the test: a TypeError iff has fails on some key; otherwise only required keys for which has is false, at most as many as required, and none iff has holds for all |
| Attributes.MissingByAgree | src/Traits/HasAttributes.php:103-107 | two membership tests that agree on every required key give the same missing-key report |
| Attributes.MissingKeysCorrected | src/Traits/HasAttributes.php:103-107 | when every required key is a single key, the missing-key report under the corrected has equals the one under has |
| Attributes.MissingKeysConcat | src/Traits/HasAttributes.php:103-107 | the report follows the order of requiredKeys across a concatenation |
| Attributes.MissingMessageLists | src/Traits/HasAttributes.php:110 | the message quotes the missing keys joined by commas; splitting the quoted part at the commas gives back each key's label |
| Attributes.CheckMissingKeys | src/Traits/HasAttributes.php:96-114 | succeeds with true iff has holds for every required key (always when none are required); fails with TypeError iff has fails on some required key; otherwise fails with one InvalidArgument whose message names the non-empty list of missing keys |
| Attributes.Construct | src/Traits/HasAttributes.php:27-31 | construction succeeds iff every required key is present by has, and then stores the attributes unchanged; a failure is the error checkMissingKeys raises |
| Arrays.Find | src/Traits/HasAttributes.php:163 | the position returned holds the key and is its first occurrence; None iff no entry has the key |
| Arrays.Lookup | src/Traits/HasAttributes.php:163 | a value is found iff array_key_exists holds, and it is stored under the normalised key |
| Arrays.Assign | src/Traits/HasAttributes.php:150 | the key then looks up to the value and other keys are unchanged; an existing key is overwritten in place, a new one appended; well-formedness is kept |
| Arrays.MaxIntKey | src/Traits/HasAttributes.php:148 | None iff there is no integer key; otherwise an integer key present in the array, bounding every integer key |
| Arrays.Push | src/Traits/HasAttributes.php:148 | fails iff the 64-bit maximum is already a key; otherwise appends one entry, leaving the prefix intact, under 0 when there is no integer key and otherwise under the integer one past the largest integer key |
| Arrays.Remove | src/Traits/HasAttributes.php:191 | a missing key leaves the array unchanged; otherwise exactly that entry is cut out; the key is then absent, other lookups are unchanged, and well-formedness is kept |
| Values.Normalize | src/Traits/HasAttributes.php:163 | the result is in normal form; normal keys and integer keys are unchanged; an integer-like string becomes the integer it spells |
| Values.NormalizeKeyText | src/Traits/HasAttributes.php:128 | writing a key as text and reading the text back as a key yields the same key |
| Values.IdenticalReflexive | src/Traits/HasRequest.php:123 | a value without floats is `===` to itself |
| Values.SameIdenticalOfIdentical | src/Traits/HasRequest.php:122-123 | a value identical to itself entry by entry is identical to itself when shared; for non-arrays the two readings agree |
| Values.SharedNaNArray | src/Traits/HasRequest.php:122-123 | a shared array holding a NaN is identical to itself although an equal copy of it is not |
| Numerals.DecimalTextIsIntegerKey | src/Traits/HasAttributes.php:163 | the decimal text of any 64-bit integer is an integer-like key and reads back as that integer |
| Numerals.IntegerKeyIsDecimalText | src/Traits/HasAttributes.php:163 | an integer-like key is exactly the decimal text of its value |
| Text.Split | src/Traits/HasAttributes.php:128 | explode yields at least one piece, none containing the separator; the first piece is the text before the first separator |
| Text.JoinSplit | src/Traits/HasAttributes.php:128 | joining the pieces of explode with the separator restores the input |
| Text.Join | src/Traits/HasAttributes.php:110 | no pieces join to ""; one piece joins to itself; otherwise the result starts with the first piece followed by the separator |
| Text.SplitJoin | src/Traits/HasAttributes.php:110 | explode recovers any non-empty list of separator-free pieces joined by the separator |
| Text.SplitSecond | src/Traits/HasRequest.php:118-120 | with a separator present explode yields at least two pieces, and the first two joined by the separator start the input |
| Text.FirstPieceEnds | src/Traits/HasRequest.php:118-120 | the first piece of explode ends at the first separator or at the end of the input |
| Text.SplitSecondEnds | src/Traits/HasRequest.php:118-120 | with a separator present the second piece of explode ends at the second separator or at the end of the input |
| Text.TrimRight | src/Traits/HasUpload.php:121 | the result is a prefix of the input that does not end with the character, and everything dropped is that character |
| Text.Trim | src/Traits/HasUpload.php:122-123 | the result is a middle slice of the input, with only the trimmed character removed on either side, and neither starting nor ending with it |
| Text.Lower | src/Traits/HasRequest.php:141 | same length; each ASCII upper-case letter becomes its lower-case letter, and every other character is kept |
| Text.LowerIdempotent | src/Traits/HasRequest.php:141 | lowering twice is lowering once |
| Request.Coalesce | src/Traits/HasRequest.php:122 | a present non-null value wins; a missing or null value yields the default |
| Request.ReadSpec | src/Traits/HasRequest.php:109-115 | a string is a name with a null default; an array gives its name at index 0 and its default at index 1, or null |
| Request.ReadSpecs | src/Traits/HasRequest.php:107-115 | the specs are read iff every entry is readable, and then entry i gives spec i under entry i's own key |
| Request.ParseName | src/Traits/HasRequest.php:118-120 | a type is split off iff the first `/` is past position 0; the name is then the text before the first `/` and the type runs from there to the second `/` or the end; otherwise the name is unchanged |
| Request.ArrayCast | src/Traits/HasRequest.php:142-144 | an array stays as it is, null becomes empty, and a scalar becomes a one-entry list |
| Request.ScalarText | src/Traits/HasRequest.php:155-156 | a string is unchanged; true is "1" and false is ""; an integer becomes the decimal text that reads back as it |
| Request.TypeCast | src/Traits/HasRequest.php:139-162 | letters are compared lowercased; 'a', 'd', 'f' and 'b' always succeed with an array, int, float and bool (the bool being truthiness); 's' fails exactly on a non-scalar, with InvalidArgument naming its gettype; any other letter leaves the value alone |
| Request.TypeCastIgnoresCase | src/Traits/HasRequest.php:141 | casting by a letter and by its lowercase form give the same result |
| Request.Param | src/Traits/HasRequest.php:108-126 | the result name is the parsed name; a failure occurs only for a typed name and is an InvalidArgument; a value taken from the default counts as identical to it unless it is a NaN float |
| Request.MissingParamYieldsDefault | src/Traits/HasRequest.php:122-126 | a parameter missing or null in the source yields its default uncast, unless the name is typed and the default is a NaN float, which is cast |
| Request.UntypedParamIsRaw | src/Traits/HasRequest.php:122 | without a type, the value is the source's value or the default |
| Request.TypedParamCast | src/Traits/HasRequest.php:123-126 | a present typed value identical to the default is returned uncast; any other is cast, and the cast's error propagates |
| Request.PresentDefaultUncast | src/Traits/HasRequest.php:122-126 | a source value equal to a float-free default is returned uncast |
| Request.CastNeverSeesNull | src/Traits/HasRequest.php:122-123 | when the value is null the parameter is null, uncast |
| Request.PairsBy | src/Traits/HasRequest.php:107-128 | one pair per spec in spec order, keyed by position or by parsed name; fails iff some spec fails, with the first failure's error |
| Request.Pairs | src/Traits/HasRequest.php:107-128 | the same, with each spec resolved as `doMore` resolves it |
| Request.LastValue | src/Traits/HasRequest.php:127 | None iff no pair names the key; otherwise the value of the last pair naming it |
| Request.AssignAll | src/Traits/HasRequest.php:127 | the result array is well-formed and no longer than the pairs |
| Request.AssignAllLookup | src/Traits/HasRequest.php:127 | every key of the assembled array holds the value of the last pair naming it, and no other key is present |
| Request.AssignAllDistinct | src/Traits/HasRequest.php:127 | when the pairs' keys are already normalised and pairwise distinct, the assembled array is exactly the pairs, in order |
| Request.FirstNaming | src/Traits/HasRequest.php:127 | the position of the first pair naming the key, or the number of pairs when none does |
| Request.AssignAllOrder | src/Traits/HasRequest.php:127 | the assembled array lists its keys in the order the pairs first name them; an overwrite keeps the key in place |
| Request.DoMore | src/Traits/HasRequest.php:104-131 | fails iff some spec's cast fails, always with InvalidArgument; the result is a well-formed array |
| Request.DoMoreIndexed | src/Traits/HasRequest.php:127 | with index_array, entry i holds spec i's value under spec i's own key, in order |
| Request.DoMoreNamed | src/Traits/HasRequest.php:127 | without index_array, each name holds the value of the last spec with that name, and only parsed names are keys |
| Request.DoMoreNamedOrder | src/Traits/HasRequest.php:127 | without index_array the names appear in the order of the first spec naming each |
| Upload.DefaultSettings | src/Traits/HasUpload.php:32-64 | the default allowlist is jpg, jpeg, gif and png |
| Upload.DefaultBaseDirKept | src/Traits/HasUpload.php:32-35 | the default storage root passes through the slash normalisation of `base` unchanged |
| Upload.DefaultRelativeDirTrimmed | src/Traits/HasUpload.php:42-45 | for a non-empty day that does not end in a slash, the trimmed default relative directory is `upload/files/` followed by the day |
| Upload.DefaultUrlPrefixKept | src/Traits/HasUpload.php:52-55 | the default URL prefix passes through the normalisation of `base` unchanged |
| Upload.BaseDir | src/Traits/HasUpload.php:121 | the directory ends in exactly one slash, which replaces whatever trailing slashes it had |
| Upload.UrlPrefix | src/Traits/HasUpload.php:123-124 | a lone slash iff the trimmed prefix is falsy ("" or "0"); otherwise the trimmed prefix between single slashes |
| Upload.MimeSubtype | src/Traits/HasUpload.php:141 | empty when the MIME type has no slash; otherwise the text after the first slash, up to a second slash or the end |
| Upload.Extension | src/Traits/HasUpload.php:135-145 | always lowercase; the reported extension when truthy, otherwise the MIME subtype for a file named blob, otherwise empty |
| Upload.Vet | src/Traits/HasUpload.php:146-154 | accepts iff the extension is off the denylist and on the allowlist (or the allowlist is empty); the denylist error takes precedence |
| Upload.StoredName | src/Traits/HasUpload.php:156 | 12 lowercase hex digits, a dot, then the extension |
| Numerals.BigEndianValue | src/Traits/HasUpload.php:156 | packing a number that fits in the width big-endian and reading the bytes back gives the number |
| Numerals.HexValueOfBin2Hex | src/Traits/HasUpload.php:156 | the hex text of a byte string reads back as the bytes' big-endian value |
| Upload.StoredNameDecodes | src/Traits/HasUpload.php:156 | the first 8 hex digits decode to the time modulo 2^32, and the next 4 to the random number |
| Upload.Base | src/Traits/HasUpload.php:119-174 | no valid file means NoFile; for a valid file it succeeds iff vetting accepts the extension; it keeps the name and size; the returned extension is off the denylist and on a non-empty allowlist; the MIME type and dimensions come from the image probe when it reports, else the upload's MIME type and zero |
| Upload.BaseNamesFile | src/Traits/HasUpload.php:156-167 | the URL is the prefix plus the relative path, and the real path is the base directory plus the same relative path |
| Upload.UrlMatchesRealpath | src/Traits/HasUpload.php:156-167 | the URL and the real path share the same suffix after their prefixes, and that suffix ends in a dot and the extension |
| Upload.ForbiddenAlwaysRejected | src/Traits/HasUpload.php:146-149 | a denylisted extension is refused whatever the allowlist holds |
| Upload.DefaultAcceptsOnlyImages | src/Traits/HasUpload.php:61-64 | with the default allowlist only jpg, jpeg, gif and png are stored |
| Upload.EmptyAllowlistAcceptsRest | src/Traits/HasUpload.php:151-154 | an empty allowlist accepts every extension off the denylist |
| Upload.ExtensionCaseFolded | src/Traits/HasUpload.php:145-154 | lowercasing comes first: PHP is denylisted, and JPG is accepted by default |
| Upload.BlobTakesMimeSubtype | src/Traits/HasUpload.php:140-143 | a `blob` with no extension and MIME type image/png is stored as png |
| Scenarios.ProfileConstructs | src/Traits/HasAttributes.php:27-31 | `{"user": {"name": "Alice", "age": 30}}` with required key `user.name` constructs |
| Scenarios.PushScenario | src/Traits/HasAttributes.php:148 | appending to `[]` uses key 0, to a string-keyed array key 0, and after the key -5 the key -4 |
| Scenarios.ProfileGets | src/Traits/HasAttributes.php:123-137 | get("user.name") is "Alice" and get("user.email", "n/a") is "n/a" |
| Scenarios.ProfileHasAge | src/Traits/HasAttributes.php:59-90 | has("user.age") is true |
| Scenarios.ProfileHasList | src/Traits/HasAttributes.php:59-90 | has(["user.name", "user.missing"]) is false |
| Scenarios.EmptyScenario | src/Traits/HasAttributes.php:96-114 | an empty container requiring `a.b` raises InvalidArgument with the message `"a.b" cannot be empty.` followed by CR LF |
| Scenarios.MagicAsymmetry | src/Traits/HasAttributes.php:180-212 | for `user.name`, `__isset` is false while `__get` finds "Alice"; after `__set`, `__isset` is true but `__get` still returns "Alice" |
| Scenarios.HasListCounterexample | src/Traits/HasAttributes.php:80 | has("user.name") is true, has(["user.name"]) is false, and the corrected has of the list is true |
| Scenarios.ParamsScenario | src/Traits/HasRequest.php:104-131 | reading `[['q', ''], ['n/b', false]]` gives two specs; on a body holding only q they give q's value and n's default uncast, keyed by parsed name |
| Scenarios.SharedDefaultScenario | src/Traits/HasRequest.php:122-127 | `[['x/s', [NAN]]]` on an empty body gives `['x' => [NAN]]` uncast, the `s` cast never running |
| Scenarios.UploadScenario | src/Traits/HasUpload.php:119-174 | a JPG upload under the default settings is stored as jpg under `upload/files/<day>`, with the URL under `/app/admin/` and the real path under `<base>/plugin/admin/public/` |

## Left out

- `toJson` and `__toString`: JSON encoding is not modelled.
- `upload()`: it is a controller action that saves a database log and builds an HTTP response. `base` is modelled without its I/O:
  - the directory creation and the file move are left out;
  - `time()`, `random_int(1, 65535)`, `base_path()`, `date('Ymd')` and `getimagesize` are parameters;
  - `isUploadInsertLog` is not modelled.
- Upload.Base: the range of `random_int(1, 65535)` is not required of `rand`; only `Upload.StoredNameDecodes` needs it.
- `HasRequest`'s request accessors are not modelled, because they read the live request. These are `inputMore`, `getMore`, `postMore`, the device and method helpers, and `input`/`get`/`post`. `doMore` takes the source array they would pass.
- Request.TypeCast: `(int)` and `(float)` of any value, `(string)` of a float and `(array)` of an object are uninterpreted functions. Only their result types are stated.
- Request.ReadSpec: a spec whose name is not a string (an integer, or an array without a string at index 0) is not modelled. PHP would coerce it or emit a warning.
- Arrays.Push: the append index is the largest integer key present plus one. PHP's internal next-free counter does not shrink after `unset`, and that history is not modelled.
- Arrays.Push: the append rule is the one of PHP 8.3 and later. Before 8.3, an array whose integer keys are all negative appends at 0 (after the key -5 the next key is 0, not -4). The code pins no PHP version.
- Attributes.Has: a list argument is modelled as a list of integer and string keys. PHP accepts a list holding any value. At `exists`, a `null` or array element raises a TypeError, and a bool or float element is coerced to an integer key. Those elements are not modelled.
- Request.Param: a source value is compared with the default entry by entry. PHP also answers `===` true when the source value is the very array stored as the default. The two differ only for an array holding a NaN float, and that sharing is not visible in a value model.
- Runtime notices and deprecations are not modelled, for example `strpos` on a non-string or reading a missing index.
- `ExceptionHandler.php`, `helpers.php`, `Patch/FixValidate.php` and `DbUtils.php` are not part of this model.

## Findings

| source | as written | input that shows it | evidently intended | confidence | as-written member | corrected member |
|---|---|---|---|---|---|---|
| src/Traits/HasAttributes.php:80 | for a list argument, each key missing at top level is checked by exploding `(string)$key`, which is the whole list and prints as `Array` | attributes `{"user": {"name": "Alice"}}`, `has(["user.name"])` returns false while `has("user.name")` returns true | explode the current key `$k`, so a list holds iff each of its keys holds | not executed | Attributes.HasListWalksArrayText, Scenarios.HasListCounterexample | Attributes.HasEachIsConjunction, Attributes.MissingKeysCorrected |

`requiredKeys` is declared as a list of strings, so its keys are single keys. On single keys the corrected `Attributes.HasEach` and `Attributes.Has` agree (`Attributes.HasEachSingleKey`). Construction is therefore the same under either reading (`Attributes.MissingKeysCorrected`). `Attributes.Has` keeps the as-written behaviour for direct calls with a list.
