/** `validateRepo` of `src/validate-repo.ts`: every book configuration file the
    glob finds is parsed, checked against the schema and checked for repeated
    `shortName`s, and then `sortOrder` and `name` are checked for repeats
    across all the files that parsed.

    Reading the disk, the glob and the schema validator are not modelled: the
    glob's result and search paths, the parser (`load`) and the validator
    (`ajv`) are parameters. */
module RepoValidation {
  import opened Wrappers
  import opened Strings
  import opened JsonValues
  import opened PropertyOrder
  import opened Tracking
  import opened Traversal
  import opened Errors

  /** One entry of the list `validateRepo` returns. The two duplicate reports
      are kept as the values their constructors receive. */
  datatype Report =
    | Error(error: ConfigError)
    | DuplicateAcrossFiles(files: seq<string>, key: string, value: string)
    | DuplicateWithinFile(file: string, key: string, value: string, paths: seq<string>)

  /** The keys that must be unique across files, in the order they are checked. */
  const UniqueAcrossFiles: seq<string> := ["sortOrder", "name"]

  /** The key that must be unique within a file. */
  const UniqueWithinFile := "shortName"

  // ---------------------------------------------------------------------------
  // Selecting the book files

  /** A path without its trailing separators. */
  function StripTrailingSlashes(p: string): string
  {
    if p != [] && p[|p| - 1] == '/' then StripTrailingSlashes(p[..|p| - 1]) else p
  }

  /** The text after the last separator. */
  function AfterLastSlash(s: string): string
  {
    if s == [] || s[|s| - 1] == '/' then "" else AfterLastSlash(s[..|s| - 1]) + [s[|s| - 1]]
  }

  /** `path.basename(file)` for POSIX paths: the last segment, ignoring
      trailing separators. */
  function Basename(p: string): (r: string)
    ensures |r| <= |p|
    ensures forall i :: 0 <= i < |r| ==> r[i] != '/'
    ensures (forall i :: 0 <= i < |p| ==> p[i] != '/') ==> r == p
  {
    StripTrailingSlashesShape(p);
    AfterLastSlashShape(StripTrailingSlashes(p));
    AfterLastSlash(StripTrailingSlashes(p))
  }

  /** Stripping removes only separators, from the end, and leaves none there. */
  lemma {:induction false} StripTrailingSlashesShape(p: string)
    ensures var r := StripTrailingSlashes(p);
      && |r| <= |p| && r == p[..|r|]
      && (r == [] || r[|r| - 1] != '/')
      && forall i :: |r| <= i < |p| ==> p[i] == '/'
  {
    if p != [] && p[|p| - 1] == '/' {
      StripTrailingSlashesShape(p[..|p| - 1]);
    }
  }

  /** The text after the last separator is a suffix holding no separator,
      preceded by a separator unless it is the whole text. */
  lemma {:induction false} AfterLastSlashShape(s: string)
    ensures var r := AfterLastSlash(s);
      && |r| <= |s| && r == s[|s| - |r|..]
      && (forall i :: 0 <= i < |r| ==> r[i] != '/')
      && (|r| == |s| || s[|s| - |r| - 1] == '/')
  {
    if s != [] && s[|s| - 1] != '/' {
      var init := s[..|s| - 1];
      AfterLastSlashShape(init);
      var r := AfterLastSlash(init);
      var r' := r + [s[|s| - 1]];
      assert AfterLastSlash(s) == r';
      assert s[|s| - |r'|..] == init[|init| - |r|..] + [s[|s| - 1]];
      forall i | 0 <= i < |r'| ensures r'[i] != '/' {
        if i < |r| {
          assert r'[i] == r[i];
        }
      }
      if |r| < |init| {
        assert s[|s| - |r'| - 1] == init[|init| - |r| - 1];
      }
    }
  }

  /** `path.basename(file).endsWith('.book.yml')` */
  predicate IsBookFile(p: string)
  {
    EndsWith(Basename(p), ".book.yml")
  }

  /** The filter of `globConfigs`. */
  function BookFiles(globbed: seq<string>): (r: seq<string>)
    ensures |r| <= |globbed|
    ensures forall i :: 0 <= i < |r| ==> IsBookFile(r[i]) && r[i] in globbed
  {
    if globbed == [] then []
    else
      var last := globbed[|globbed| - 1];
      BookFiles(globbed[..|globbed| - 1]) + (if IsBookFile(last) then [last] else [])
  }

  // ---------------------------------------------------------------------------
  // The reports, as functions of the inputs

  /** What `parseYAMLFile` reports: one parse error when the file does not parse. */
  function ParseReports(file: string, parsed: Result<Json, YamlParseError>): seq<Report>
  {
    match parsed
    case Success(_) => []
    case Failure(err) => [Error(ParseError(file, err))]
  }

  /** What `validateConfigSchema` reports: one validation error per error
      object of the validator, in its order. */
  function SchemaReports(file: string, found: seq<ValidationErrorObject>): (r: seq<Report>)
  {
    seq(|found|, i requires 0 <= i < |found| => Error(ValidationError(file, found[i])))
  }

  /** A within-file report for each duplicate group. */
  function WithinReports(file: string, key: string, dups: seq<(string, seq<string>)>): (r: seq<Report>)
    ensures |r| == |dups|
  {
    if dups == [] then []
    else
      var d := dups[|dups| - 1];
      WithinReports(file, key, dups[..|dups| - 1]) + [DuplicateWithinFile(file, key, d.0, d.1)]
  }

  /** An across-file report for each duplicate group. */
  function AcrossReports(key: string, dups: seq<(string, seq<string>)>): (r: seq<Report>)
    ensures |r| == |dups|
  {
    if dups == [] then []
    else
      var d := dups[|dups| - 1];
      AcrossReports(key, dups[..|dups| - 1]) + [DuplicateAcrossFiles(d.1, key, d.0)]
  }

  /** The tracker the within-file check fills for one document. */
  function WithinTracker(config: Json, key: string): (m: Multimap)
    ensures Valid(m)
  {
    TrackedAllGroups(Occurrences(config, key, ""));
    TrackedAll(Empty, Occurrences(config, key, ""))
  }

  /** What `checkUniqueValuesWithinConfig` reports for one document. */
  function WithinFileReports(file: string, config: Json, key: string): seq<Report>
  {
    WithinReports(file, key, Duplicates(WithinTracker(config, key)))
  }

  /** Everything one file adds to the list before the across-file check. */
  function FileReports(file: string, parsed: Result<Json, YamlParseError>, ajv: Json -> seq<ValidationErrorObject>): seq<Report>
  {
    match parsed
    case Failure(err) => ParseReports(file, parsed)
    case Success(config) =>
      if !Truthy(config) then []
      else SchemaReports(file, ajv(config)) + WithinFileReports(file, config, UniqueWithinFile)
  }

  /** The reports of the files, one after the other. */
  function PerFileReports(files: seq<string>, load: string -> Result<Json, YamlParseError>, ajv: Json -> seq<ValidationErrorObject>): seq<Report>
  {
    if files == [] then []
    else
      var last := files[|files| - 1];
      PerFileReports(files[..|files| - 1], load, ajv) + FileReports(last, load(last), ajv)
  }

  /** The `configs` record: the documents that parsed to a truthy value, by
      path, and the paths in the order they were first assigned. */
  datatype Registry = Registry(configs: map<string, Json>, order: seq<string>)

  predicate RegistryValid(r: Registry)
  {
    && (forall i, j :: 0 <= i < j < |r.order| ==> r.order[i] != r.order[j])
    && (forall f :: f in r.configs ==> f in r.order)
    && (forall i :: 0 <= i < |r.order| ==> r.order[i] in r.configs)
  }

  /** `configs[file] = config` */
  function Register(r: Registry, file: string, config: Json): (r': Registry)
    ensures RegistryValid(r) ==> RegistryValid(r')
  {
    Registry(r.configs[file := config], if file in r.configs then r.order else r.order + [file])
  }

  /** The `configs` record after the loop over `files`. */
  function RegistryOf(files: seq<string>, load: string -> Result<Json, YamlParseError>): (r: Registry)
    ensures RegistryValid(r)
  {
    if files == [] then Registry(map[], [])
    else
      var last := files[|files| - 1];
      RecordFile(RegistryOf(files[..|files| - 1], load), last, load(last))
  }

  /** One turn of the loop on `configs`: a file is recorded only when it
      parsed to a truthy document. */
  function RecordFile(r: Registry, file: string, parsed: Result<Json, YamlParseError>): Registry
  {
    if parsed.Success? && Truthy(parsed.value) then Register(r, file, parsed.value) else r
  }

  /** The files in the record's enumeration order, `for (const filepath in configs)`. */
  function FileOrder(r: Registry): (fs: seq<string>)
    requires RegistryValid(r)
    ensures multiset(fs) == multiset(r.order)
    ensures forall i :: 0 <= i < |fs| ==> fs[i] in r.configs
  {
    var fs := ForInOrder(r.order);
    assert forall i :: 0 <= i < |fs| ==> fs[i] in r.configs by {
      forall i | 0 <= i < |fs| ensures fs[i] in r.configs {
        var j := SameElementAt(fs, r.order, i);
      }
    }
    fs
  }

  /** An element of a permutation of `b` occurs in `b`. */
  lemma SameElementAt(a: seq<string>, b: seq<string>, i: nat) returns (j: nat)
    requires multiset(a) == multiset(b) && i < |a|
    ensures j < |b| && b[j] == a[i]
  {
    assert a[i] in multiset(b);
    j :| 0 <= j < |b| && b[j] == a[i];
  }

  /** The (value, file) pairs the across-file tracker of `key` receives from
      `files`: `config[key]?.toString()`, `undefined` standing as `''`. */
  function KeyPairs(configs: map<string, Json>, key: string, files: seq<string>): (r: seq<(string, string)>)
    requires forall i :: 0 <= i < |files| ==> files[i] in configs
    ensures |r| == |files|
    ensures forall i :: 0 <= i < |files| ==> r[i] == (PropertyString(configs[files[i]], key).GetOr(""), files[i])
  {
    if files == [] then []
    else
      var last := files[|files| - 1];
      KeyPairs(configs, key, files[..|files| - 1]) + [(PropertyString(configs[last], key).GetOr(""), last)]
  }

  /** The (value, file) pairs the across-file check tracks for `key`, in the
      record's enumeration order. */
  function RegistryPairs(r: Registry, key: string): seq<(string, string)>
    requires RegistryValid(r)
  {
    KeyPairs(r.configs, key, FileOrder(r))
  }

  /** The tracker of `key` once every registered file has been tracked. */
  function KeyTracker(r: Registry, key: string): (m: Multimap)
    requires RegistryValid(r)
    ensures Valid(m)
  {
    var pairs := RegistryPairs(r, key);
    TrackedAllGroups(pairs);
    TrackedAll(Empty, pairs)
  }

  /** The across-file reports of each key, from the key's tracker, key after key. */
  function KeyedReports(keys: seq<string>, ms: seq<Multimap>): seq<Report>
    requires |ms| == |keys|
  {
    if keys == [] then []
    else
      var n := |keys| - 1;
      KeyedReports(keys[..n], ms[..n]) + AcrossReports(keys[n], Duplicates(ms[n]))
  }

  /** The trackers of all `keys`. */
  function KeyTrackers(r: Registry, keys: seq<string>): (ms: seq<Multimap>)
    requires RegistryValid(r)
    ensures |ms| == |keys|
    ensures forall j :: 0 <= j < |keys| ==> ms[j] == KeyTracker(r, keys[j]) && Valid(ms[j])
  {
    seq(|keys|, j requires 0 <= j < |keys| => KeyTracker(r, keys[j]))
  }

  /** What `checkUniqueValuesAcrossConfigs(configs, keys, errors)` reports. */
  function AcrossFileReports(r: Registry, keys: seq<string>): seq<Report>
    requires RegistryValid(r)
  {
    KeyedReports(keys, KeyTrackers(r, keys))
  }

  /** The list `validateRepo` returns, given what the glob finds, the parser
      and the validator. */
  function Validation(globbed: seq<string>, searchPaths: seq<string>,
                      load: string -> Result<Json, YamlParseError>,
                      ajv: Json -> seq<ValidationErrorObject>): seq<Report>
  {
    var files := BookFiles(globbed);
    if files == [] then [Error(MissingConfigError(searchPaths))]
    else BookReports(files, load, ajv)
  }

  /** The list for a non-empty list of book files: the reports of each file
      in turn, then the repeats of `sortOrder` and of `name` across files. */
  function BookReports(files: seq<string>, load: string -> Result<Json, YamlParseError>,
                       ajv: Json -> seq<ValidationErrorObject>): seq<Report>
  {
    PerFileReports(files, load, ajv) + AcrossFileReports(RegistryOf(files, load), UniqueAcrossFiles)
  }

  // ---------------------------------------------------------------------------
  // The validator, step by step

  lemma Associative(a: seq<Report>, b: seq<Report>, c: seq<Report>)
    ensures a + b + c == a + (b + c)
  {
  }

  /** The `errors` array the helpers push to. */
  class ErrorList {
    var items: seq<Report>

    constructor ()
      ensures items == []
    {
      items := [];
    }

    method Push(r: Report)
      modifies this
      ensures items == old(items) + [r]
    {
      items := items + [r];
    }
  }

  /** `parseYAMLFile(file, errors)`: the document, or nothing and a parse error. */
  method ParseYamlFile(file: string, errors: ErrorList, load: string -> Result<Json, YamlParseError>)
    returns (config: Option<Json>)
    modifies errors
    ensures config == if load(file).Success? then Some(load(file).value) else None
    ensures errors.items == old(errors.items) + ParseReports(file, load(file))
  {
    var parsed := load(file);
    match parsed
    case Success(doc) =>
      config := Some(doc);
    case Failure(err) =>
      errors.Push(Error(ParseError(file, err)));
      config := None;
  }

  lemma SchemaReportsStep(prefix: seq<Report>, file: string, found: seq<ValidationErrorObject>, i: nat)
    requires i < |found|
    ensures prefix + SchemaReports(file, found[..i + 1])
      == prefix + SchemaReports(file, found[..i]) + [Error(ValidationError(file, found[i]))]
  {
    var a, b := SchemaReports(file, found[..i + 1]), SchemaReports(file, found[..i]);
    forall k | 0 <= k < i ensures a[k] == b[k] {
      assert found[..i + 1][k] == found[k] == found[..i][k];
    }
    assert a[i] == Error(ValidationError(file, found[i]));
    assert a == b + [Error(ValidationError(file, found[i]))];
    Associative(prefix, b, [Error(ValidationError(file, found[i]))]);
  }

  /** `validateConfigSchema(file, config, errors)` */
  method ValidateConfigSchema(file: string, config: Json, errors: ErrorList, ajv: Json -> seq<ValidationErrorObject>)
    modifies errors
    ensures errors.items == old(errors.items) + SchemaReports(file, ajv(config))
  {
    var found := ajv(config);
    var i := 0;
    while i < |found|
      invariant 0 <= i <= |found|
      invariant errors.items == old(errors.items) + SchemaReports(file, found[..i])
    {
      SchemaReportsStep(old(errors.items), file, found, i);
      errors.Push(Error(ValidationError(file, found[i])));
      i := i + 1;
    }
    assert found[..i] == found;
  }

  /** Every value a valid multimap enumerates has a list. */
  lemma EnumeratedAreTracked(m: Multimap)
    requires Valid(m)
    ensures forall i :: 0 <= i < |ForInOrder(m.order)| ==> ForInOrder(m.order)[i] in m.locations
  {
    var values := ForInOrder(m.order);
    forall i | 0 <= i < |values| ensures values[i] in m.locations {
      assert values[i] in multiset(m.order);
    }
  }

  /** One more value of the loop over the tracker's values: its group, if
      it has more than one location, is appended to what was reported so far. */
  lemma WithinReportsStep(prefix: seq<Report>, m: Multimap, file: string, key: string, values: seq<string>, i: nat)
    requires i < |values| && values[i] in m.locations
    ensures |m.locations[values[i]]| > 1 ==>
      prefix + WithinReports(file, key, DuplicatesAmong(m, values[..i + 1]))
      == prefix + WithinReports(file, key, DuplicatesAmong(m, values[..i])) + [DuplicateWithinFile(file, key, values[i], m.locations[values[i]])]
    ensures |m.locations[values[i]]| <= 1 ==>
      prefix + WithinReports(file, key, DuplicatesAmong(m, values[..i + 1]))
      == prefix + WithinReports(file, key, DuplicatesAmong(m, values[..i]))
  {
    var v := values[i];
    assert values[..i + 1][..i] == values[..i];
    var d := DuplicatesAmong(m, values[..i]);
    var w := WithinReports(file, key, d);
    if |m.locations[v]| > 1 {
      assert DuplicatesAmong(m, values[..i + 1]) == d + [(v, m.locations[v])];
      Associative(prefix, w, [DuplicateWithinFile(file, key, v, m.locations[v])]);
    } else {
      assert DuplicatesAmong(m, values[..i + 1]) == d;
    }
  }

  lemma AcrossReportsStep(prefix: seq<Report>, m: Multimap, key: string, values: seq<string>, i: nat)
    requires i < |values| && values[i] in m.locations
    ensures |m.locations[values[i]]| > 1 ==>
      prefix + AcrossReports(key, DuplicatesAmong(m, values[..i + 1]))
      == prefix + AcrossReports(key, DuplicatesAmong(m, values[..i])) + [DuplicateAcrossFiles(m.locations[values[i]], key, values[i])]
    ensures |m.locations[values[i]]| <= 1 ==>
      prefix + AcrossReports(key, DuplicatesAmong(m, values[..i + 1]))
      == prefix + AcrossReports(key, DuplicatesAmong(m, values[..i]))
  {
    var v := values[i];
    assert values[..i + 1][..i] == values[..i];
    var d := DuplicatesAmong(m, values[..i]);
    var w := AcrossReports(key, d);
    if |m.locations[v]| > 1 {
      assert DuplicatesAmong(m, values[..i + 1]) == d + [(v, m.locations[v])];
      Associative(prefix, w, [DuplicateAcrossFiles(m.locations[v], key, v)]);
    } else {
      assert DuplicatesAmong(m, values[..i + 1]) == d;
    }
  }


  /** The loop of `checkUniqueWithinConfig`, over the values `values` of `m`
      taken in that order. */
  method ReportWithinGroups(m: Multimap, values: seq<string>, key: string, errors: ErrorList, filepath: string)
    requires forall i :: 0 <= i < |values| ==> values[i] in m.locations
    modifies errors
    ensures errors.items == old(errors.items) + WithinReports(filepath, key, DuplicatesAmong(m, values))
  {
    var i := 0;
    while i < |values|
      invariant 0 <= i <= |values|
      invariant errors.items == old(errors.items) + WithinReports(filepath, key, DuplicatesAmong(m, values[..i]))
    {
      var value := values[i];
      var paths := m.locations[value];
      WithinReportsStep(old(errors.items), m, filepath, key, values, i);
      if |paths| > 1 {
        errors.Push(DuplicateWithinFile(filepath, key, value, paths));
      }
      i := i + 1;
    }
    assert values[..i] == values;
  }

  /** `checkUniqueWithinConfig(tracker, key, errors, filepath)`: the tracker's
      values in enumeration order, each with more than one path reported. */
  method CheckUniqueWithinConfig(tracker: Tracker, key: string, errors: ErrorList, filepath: string)
    requires Valid(tracker.Value())
    modifies errors
    ensures errors.items == old(errors.items) + WithinReports(filepath, key, Duplicates(tracker.Value()))
  {
    var m := tracker.Value();
    var values := ForInOrder(m.order);
    EnumeratedAreTracked(m);
    ReportWithinGroups(m, values, key, errors, filepath);
  }

  /** `checkUniqueValuesWithinConfig(config, key, errors, filepath)` */
  method CheckUniqueValuesWithinConfig(config: Json, key: string, errors: ErrorList, filepath: string)
    modifies errors
    ensures errors.items == old(errors.items) + WithinFileReports(filepath, config, key)
  {
    var tracker := new Tracker();
    Traverse(config, key, tracker, "");
    assert tracker.Value() == WithinTracker(config, key);
    CheckUniqueWithinConfig(tracker, key, errors, filepath);
  }

  /** The loop of `checkUniqueAcrossConfigs`, over the values `values` of `m`
      taken in that order. */
  method ReportAcrossGroups(m: Multimap, values: seq<string>, key: string, errors: ErrorList)
    requires forall i :: 0 <= i < |values| ==> values[i] in m.locations
    modifies errors
    ensures errors.items == old(errors.items) + AcrossReports(key, DuplicatesAmong(m, values))
  {
    var i := 0;
    while i < |values|
      invariant 0 <= i <= |values|
      invariant errors.items == old(errors.items) + AcrossReports(key, DuplicatesAmong(m, values[..i]))
    {
      var value := values[i];
      var files := m.locations[value];
      AcrossReportsStep(old(errors.items), m, key, values, i);
      if |files| > 1 {
        errors.Push(DuplicateAcrossFiles(files, key, value));
      }
      i := i + 1;
    }
    assert values[..i] == values;
  }

  /** `checkUniqueAcrossConfigs(tracker, key, errors)` */
  method CheckUniqueAcrossConfigs(tracker: Tracker, key: string, errors: ErrorList)
    requires Valid(tracker.Value())
    modifies errors
    ensures errors.items == old(errors.items) + AcrossReports(key, Duplicates(tracker.Value()))
  {
    var m := tracker.Value();
    var values := ForInOrder(m.order);
    EnumeratedAreTracked(m);
    ReportAcrossGroups(m, values, key, errors);
  }

  /** `keys.forEach(key => (trackers[key] = {}))`: one new, empty tracker per key. */
  method NewTrackers(n: nat) returns (trackers: seq<Tracker>)
    ensures |trackers| == n
    ensures forall j :: 0 <= j < n ==> fresh(trackers[j]) && trackers[j].Value() == Empty
    ensures forall a, b :: 0 <= a < b < n ==> trackers[a] != trackers[b]
  {
    trackers := [];
    while |trackers| < n
      invariant |trackers| <= n
      invariant forall j :: 0 <= j < |trackers| ==> fresh(trackers[j]) && trackers[j].Value() == Empty
      invariant forall a, b :: 0 <= a < b < |trackers| ==> trackers[a] != trackers[b]
    {
      var t := new Tracker();
      trackers := trackers + [t];
    }
  }

  /** `keys.forEach(key => trackValueAcrossFiles(trackers[key], config[key]?.toString(), filepath))` */
  method TrackFile(trackers: seq<Tracker>, keys: seq<string>, config: Json, filepath: string)
    requires |trackers| == |keys|
    requires forall a, b :: 0 <= a < b < |trackers| ==> trackers[a] != trackers[b]
    modifies set t | t in trackers
    ensures forall j :: 0 <= j < |keys| ==>
      trackers[j].Value() == Tracked(old(trackers[j].Value()), PropertyString(config, keys[j]).GetOr(""), filepath)
  {
    ghost var before := seq(|trackers|, m requires 0 <= m < |trackers| reads trackers => trackers[m].Value());
    var j := 0;
    while j < |keys|
      invariant 0 <= j <= |keys|
      invariant forall m :: 0 <= m < |keys| ==>
        trackers[m].Value() == if m < j then Tracked(before[m], PropertyString(config, keys[m]).GetOr(""), filepath) else before[m]
    {
      trackers[j].Track(PropertyString(config, keys[j]).GetOr(""), filepath);
      j := j + 1;
    }
  }

  lemma KeyPairsStep(configs: map<string, Json>, key: string, files: seq<string>, i: nat)
    requires i < |files| && forall k :: 0 <= k < |files| ==> files[k] in configs
    ensures TrackedAll(Empty, KeyPairs(configs, key, files[..i + 1]))
      == Tracked(TrackedAll(Empty, KeyPairs(configs, key, files[..i])), PropertyString(configs[files[i]], key).GetOr(""), files[i])
  {
    assert files[..i + 1][..i] == files[..i];
  }

  /** `for (const filepath in configs) keys.forEach(...)`: each file of
      `files`, in turn, tracked under every key. */
  method TrackFiles(trackers: seq<Tracker>, keys: seq<string>, configs: map<string, Json>, files: seq<string>)
    requires |trackers| == |keys|
    requires forall a, b :: 0 <= a < b < |trackers| ==> trackers[a] != trackers[b]
    requires forall i :: 0 <= i < |files| ==> files[i] in configs
    requires forall j :: 0 <= j < |keys| ==> trackers[j].Value() == Empty
    modifies set t | t in trackers
    ensures forall j :: 0 <= j < |keys| ==> trackers[j].Value() == TrackedAll(Empty, KeyPairs(configs, keys[j], files))
  {
    var i := 0;
    while i < |files|
      invariant 0 <= i <= |files|
      invariant forall j :: 0 <= j < |keys| ==> trackers[j].Value() == TrackedAll(Empty, KeyPairs(configs, keys[j], files[..i]))
    {
      TrackFile(trackers, keys, configs[files[i]], files[i]);
      forall j | 0 <= j < |keys|
        ensures trackers[j].Value() == TrackedAll(Empty, KeyPairs(configs, keys[j], files[..i + 1]))
      {
        KeyPairsStep(configs, keys[j], files, i);
      }
      i := i + 1;
    }
    assert files[..i] == files;
  }

  lemma KeyedReportsStep(prefix: seq<Report>, keys: seq<string>, ms: seq<Multimap>, j: nat)
    requires |ms| == |keys| && j < |keys|
    ensures prefix + KeyedReports(keys[..j + 1], ms[..j + 1])
      == prefix + KeyedReports(keys[..j], ms[..j]) + AcrossReports(keys[j], Duplicates(ms[j]))
  {
    assert keys[..j + 1][..j] == keys[..j];
    assert ms[..j + 1][..j] == ms[..j];
    Associative(prefix, KeyedReports(keys[..j], ms[..j]), AcrossReports(keys[j], Duplicates(ms[j])));
  }

  /** `keys.forEach(key => checkUniqueAcrossConfigs(trackers[key], key, errors))`,
      where the tracker of `keys[j]` holds `ms[j]`. */
  method ReportKeys(trackers: seq<Tracker>, keys: seq<string>, ghost ms: seq<Multimap>, errors: ErrorList)
    requires |trackers| == |keys| == |ms|
    requires forall j :: 0 <= j < |keys| ==> Valid(ms[j]) && trackers[j].Value() == ms[j]
    modifies errors
    ensures errors.items == old(errors.items) + KeyedReports(keys, ms)
  {
    var j := 0;
    while j < |keys|
      invariant 0 <= j <= |keys|
      invariant errors.items == old(errors.items) + KeyedReports(keys[..j], ms[..j])
    {
      assert trackers[j].Value() == ms[j] && Valid(ms[j]);
      CheckUniqueAcrossConfigs(trackers[j], keys[j], errors);
      KeyedReportsStep(old(errors.items), keys, ms, j);
      j := j + 1;
    }
    assert keys[..j] == keys;
    assert ms[..j] == ms;
  }

  /** `checkUniqueValuesAcrossConfigs(configs, keys, errors)` */
  method CheckUniqueValuesAcrossConfigs(r: Registry, keys: seq<string>, errors: ErrorList)
    requires RegistryValid(r)
    requires forall a, b :: 0 <= a < b < |keys| ==> keys[a] != keys[b]
    modifies errors
    ensures errors.items == old(errors.items) + AcrossFileReports(r, keys)
  {
    var trackers := NewTrackers(|keys|);
    var files := FileOrder(r);
    TrackFiles(trackers, keys, r.configs, files);
    ReportKeys(trackers, keys, KeyTrackers(r, keys), errors);
  }

  lemma PerFileStep(prefix: seq<Report>, files: seq<string>, i: nat,
                    load: string -> Result<Json, YamlParseError>, ajv: Json -> seq<ValidationErrorObject>)
    requires i < |files|
    ensures prefix + PerFileReports(files[..i + 1], load, ajv)
      == prefix + PerFileReports(files[..i], load, ajv) + FileReports(files[i], load(files[i]), ajv)
    ensures RegistryOf(files[..i + 1], load) == RecordFile(RegistryOf(files[..i], load), files[i], load(files[i]))
  {
    assert files[..i + 1][..i] == files[..i];
    Associative(prefix, PerFileReports(files[..i], load, ajv), FileReports(files[i], load(files[i]), ajv));
  }

  /** One turn of the loop over the files: parse, skip a falsy document,
      validate it, check it for repeated values and record it in `configs`. */
  method CheckFile(file: string, list: ErrorList, configs: Registry,
                   load: string -> Result<Json, YamlParseError>, ajv: Json -> seq<ValidationErrorObject>)
    returns (configs': Registry)
    modifies list
    ensures list.items == old(list.items) + FileReports(file, load(file), ajv)
    ensures configs' == RecordFile(configs, file, load(file))
  {
    configs' := configs;
    var config := ParseYamlFile(file, list, load);
    if !(config.Some? && Truthy(config.value)) {
      assert FileReports(file, load(file), ajv) == ParseReports(file, load(file));
      return;
    }
    var doc := config.value;
    assert load(file) == Success(doc) && ParseReports(file, load(file)) == [];
    assert list.items == old(list.items);
    ValidateConfigSchema(file, doc, list, ajv);
    CheckUniqueValuesWithinConfig(doc, UniqueWithinFile, list, file);
    configs' := Register(configs, file, doc);
    Associative(old(list.items), SchemaReports(file, ajv(doc)), WithinFileReports(file, doc, UniqueWithinFile));
    assert FileReports(file, load(file), ajv) == SchemaReports(file, ajv(doc)) + WithinFileReports(file, doc, UniqueWithinFile);
  }

  /** The loop over the files: the per-file reports, and the `configs` record. */
  method CheckFiles(files: seq<string>, list: ErrorList,
                    load: string -> Result<Json, YamlParseError>, ajv: Json -> seq<ValidationErrorObject>)
    returns (configs: Registry)
    modifies list
    ensures list.items == old(list.items) + PerFileReports(files, load, ajv)
    ensures configs == RegistryOf(files, load)
  {
    configs := Registry(map[], []);
    var i := 0;
    while i < |files|
      invariant 0 <= i <= |files|
      invariant list.items == old(list.items) + PerFileReports(files[..i], load, ajv)
      invariant configs == RegistryOf(files[..i], load)
    {
      var file := files[i];
      ghost var before := list.items;
      ghost var next := FileReports(file, load(file), ajv);
      PerFileStep(old(list.items), files, i, load, ajv);
      configs := CheckFile(file, list, configs, load, ajv);
      assert list.items == before + next;
      assert before + next == old(list.items) + PerFileReports(files[..i + 1], load, ajv);
      i := i + 1;
    }
    assert files[..i] == files;
  }

  /** The body of `validateRepo` once some book file was found. */
  method ValidateBooks(files: seq<string>, load: string -> Result<Json, YamlParseError>,
                       ajv: Json -> seq<ValidationErrorObject>)
    returns (errors: seq<Report>)
    ensures errors == BookReports(files, load, ajv)
  {
    var list := new ErrorList();
    var configs := CheckFiles(files, list, load, ajv);
    assert list.items == PerFileReports(files, load, ajv);
    CheckUniqueValuesAcrossConfigs(configs, UniqueAcrossFiles, list);
    assert list.items == PerFileReports(files, load, ajv) + AcrossFileReports(configs, UniqueAcrossFiles);
    errors := list.items;
  }

  /** `validateRepo(include)`, from the glob's result onwards. */
  method ValidateRepo(globbed: seq<string>, searchPaths: seq<string>,
                      load: string -> Result<Json, YamlParseError>,
                      ajv: Json -> seq<ValidationErrorObject>)
    returns (errors: seq<Report>)
    ensures errors == Validation(globbed, searchPaths, load, ajv)
  {
    var files := BookFiles(globbed);
    if |files| == 0 {
      return [Error(MissingConfigError(searchPaths))];
    }
    errors := ValidateBooks(files, load, ajv);
  }
}
