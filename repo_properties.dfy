/** What the list `validateRepo` returns says about the repository: which
    files are looked at, which reports each file contributes, when a value is
    reported as repeated, and in which order the reports come. */
module RepoProperties {
  import opened Wrappers
  import opened Strings
  import opened JsonValues
  import opened PropertyOrder
  import opened Tracking
  import opened Traversal
  import opened Errors
  import opened RepoValidation

  // ---------------------------------------------------------------------------
  // The files that are looked at

  /** A path is checked exactly when the glob found it and its basename ends
      with `.book.yml`. */
  lemma {:induction false} BookFilesExactly(globbed: seq<string>, x: string)
    ensures x in BookFiles(globbed) <==> x in globbed && IsBookFile(x)
  {
    if globbed != [] {
      var init := globbed[..|globbed| - 1];
      BookFilesExactly(init, x);
      assert globbed == init + [globbed[|globbed| - 1]];
    }
  }

  /** The filter keeps the glob's order. */
  lemma {:induction false} BookFilesConcat(a: seq<string>, b: seq<string>)
    ensures BookFiles(a + b) == BookFiles(a) + BookFiles(b)
  {
    if b == [] {
      assert a + b == a;
    } else {
      var init := b[..|b| - 1];
      var last := b[|b| - 1];
      BookFilesConcat(a, init);
      assert (a + b)[..|a + b| - 1] == a + init;
      assert (a + b)[|a + b| - 1] == last;
      var tail := if IsBookFile(last) then [last] else [];
      assert BookFiles(a) + BookFiles(init) + tail == BookFiles(a) + (BookFiles(init) + tail);
    }
  }

  /** A book file's path holds the `.` of `.book.yml`, so it is never an
      array index and a record keyed by such paths enumerates them in
      insertion order. */
  lemma BookFileIsNoIndex(p: string)
    requires IsBookFile(p)
    ensures !IsArrayIndex(p)
    ensures p != ""
  {
    var s := StripTrailingSlashes(p);
    var b := AfterLastSlash(s);
    StripTrailingSlashesShape(p);
    AfterLastSlashShape(s);
    assert Basename(p) == b;
    var k := |b| - |".book.yml"|;
    assert b[k] == '.' by {
      assert b[k..] == ".book.yml";
    }
    var i := |s| - |b| + k;
    assert s[i] == '.' by {
      assert s[|s| - |b|..] == b;
    }
    assert p[i] == '.' by {
      assert p[..|s|] == s;
    }
    NonDigitIsNoIndex(p, i);
  }

  /** Every path the filter keeps is a non-empty book file path. */
  lemma BookFilesNamed(globbed: seq<string>)
    ensures forall i :: 0 <= i < |BookFiles(globbed)| ==> IsBookFile(BookFiles(globbed)[i])
    ensures forall i :: 0 <= i < |BookFiles(globbed)| ==> BookFiles(globbed)[i] != ""
  {
    var files := BookFiles(globbed);
    forall i | 0 <= i < |files| ensures IsBookFile(files[i]) && files[i] != "" {
      BookFilesExactly(globbed, files[i]);
      BookFileIsNoIndex(files[i]);
    }
  }

  // ---------------------------------------------------------------------------
  // The record of parsed documents

  /** A file is in the record exactly when it is among the files and its
      document parsed to a truthy value, and then it holds that document. A
      file that does not parse, or whose document is falsy, never reaches the
      across-file check. */
  lemma {:induction false} RegistryExactly(files: seq<string>, load: string -> Result<Json, YamlParseError>, f: string)
    ensures f in RegistryOf(files, load).configs <==> f in files && load(f).Success? && Truthy(load(f).value)
    ensures f in RegistryOf(files, load).configs ==> RegistryOf(files, load).configs[f] == load(f).value
  {
    if files != [] {
      var init := files[..|files| - 1];
      RegistryExactly(init, load, f);
      assert files == init + [files[|files| - 1]];
    }
  }

  /** What one file adds before the across-file check: its parse error
      alone when it does not parse; nothing when its document is falsy;
      otherwise one validation error per validator error, in order, and then
      its within-file repeats, whatever the validator found. */
  lemma FileOutcome(file: string, parsed: Result<Json, YamlParseError>, ajv: Json -> seq<ValidationErrorObject>)
    ensures var r := FileReports(file, parsed, ajv);
      parsed.Failure? ==> |r| == 1 && r[0] == Error(ParseError(file, parsed.error))
    ensures parsed.Success? && !Truthy(parsed.value) ==> FileReports(file, parsed, ajv) == []
    ensures parsed.Success? && Truthy(parsed.value) ==>
      var r, found := FileReports(file, parsed, ajv), ajv(parsed.value);
      && |r| == |found| + |WithinFileReports(file, parsed.value, UniqueWithinFile)|
      && (forall i :: 0 <= i < |found| ==> r[i] == Error(ValidationError(file, found[i])))
      && r[|found|..] == WithinFileReports(file, parsed.value, UniqueWithinFile)
  {
    if parsed.Success? && Truthy(parsed.value) {
      var r, found := FileReports(file, parsed, ajv), ajv(parsed.value);
      var schema := SchemaReports(file, found);
      assert r == schema + WithinFileReports(file, parsed.value, UniqueWithinFile);
      assert r[|found|..] == WithinFileReports(file, parsed.value, UniqueWithinFile);
    }
  }

  /** The across-file trackers walk the book files in the order they were
      first recorded. */
  lemma FileOrderOfBooks(files: seq<string>, load: string -> Result<Json, YamlParseError>)
    requires forall i :: 0 <= i < |files| ==> IsBookFile(files[i])
    ensures FileOrder(RegistryOf(files, load)) == RegistryOf(files, load).order
  {
    var r := RegistryOf(files, load);
    forall i | 0 <= i < |r.order| ensures !IsArrayIndex(r.order[i]) {
      RegistryExactly(files, load, r.order[i]);
      BookFileIsNoIndex(r.order[i]);
    }
    NoIndexKeysKeepOrder(r.order);
  }

  // ---------------------------------------------------------------------------
  // Only the book files matter

  lemma {:induction false} PerFileLocal(files: seq<string>, load1: string -> Result<Json, YamlParseError>,
                                        load2: string -> Result<Json, YamlParseError>, ajv: Json -> seq<ValidationErrorObject>)
    requires forall i :: 0 <= i < |files| ==> load1(files[i]) == load2(files[i])
    ensures PerFileReports(files, load1, ajv) == PerFileReports(files, load2, ajv)
    ensures RegistryOf(files, load1) == RegistryOf(files, load2)
  {
    if files != [] {
      PerFileLocal(files[..|files| - 1], load1, load2, ajv);
    }
  }

  /** The list depends on the disk only through the book files the glob
      found: two file systems that agree on those give the same list. */
  lemma ValidationLocal(globbed: seq<string>, searchPaths: seq<string>,
                        load1: string -> Result<Json, YamlParseError>, load2: string -> Result<Json, YamlParseError>,
                        ajv: Json -> seq<ValidationErrorObject>)
    requires forall f :: f in globbed && IsBookFile(f) ==> load1(f) == load2(f)
    ensures Validation(globbed, searchPaths, load1, ajv) == Validation(globbed, searchPaths, load2, ajv)
  {
    var files := BookFiles(globbed);
    forall i | 0 <= i < |files| ensures load1(files[i]) == load2(files[i]) {
      BookFilesExactly(globbed, files[i]);
    }
    PerFileLocal(files, load1, load2, ajv);
  }

  // ---------------------------------------------------------------------------
  // The reports of each file

  /** The within-file reports are the duplicate groups, in order. */
  lemma {:induction false} WithinReportsAt(file: string, key: string, dups: seq<(string, seq<string>)>)
    ensures forall i :: 0 <= i < |dups| ==> WithinReports(file, key, dups)[i] == DuplicateWithinFile(file, key, dups[i].0, dups[i].1)
  {
    if dups != [] {
      var init := dups[..|dups| - 1];
      var d := dups[|dups| - 1];
      WithinReportsAt(file, key, init);
      assert WithinReports(file, key, dups) == WithinReports(file, key, init) + [DuplicateWithinFile(file, key, d.0, d.1)];
    }
  }

  lemma WithinReportsExactly(file: string, key: string, dups: seq<(string, seq<string>)>, rep: Report)
    ensures rep in WithinReports(file, key, dups) <==>
      rep.DuplicateWithinFile? && rep.file == file && rep.key == key && (rep.value, rep.paths) in dups
  {
    var rs := WithinReports(file, key, dups);
    WithinReportsAt(file, key, dups);
    if rep in rs {
      var i :| 0 <= i < |rs| && rs[i] == rep;
      assert dups[i] == (rep.value, rep.paths);
    }
    if rep.DuplicateWithinFile? && rep.file == file && rep.key == key && (rep.value, rep.paths) in dups {
      var i :| 0 <= i < |dups| && dups[i] == (rep.value, rep.paths);
      assert rs[i] == rep;
    }
  }

  /** The across-file reports are the duplicate groups, in order. */
  lemma {:induction false} AcrossReportsAt(key: string, dups: seq<(string, seq<string>)>)
    ensures forall i :: 0 <= i < |dups| ==> AcrossReports(key, dups)[i] == DuplicateAcrossFiles(dups[i].1, key, dups[i].0)
  {
    if dups != [] {
      var init := dups[..|dups| - 1];
      var d := dups[|dups| - 1];
      AcrossReportsAt(key, init);
      assert AcrossReports(key, dups) == AcrossReports(key, init) + [DuplicateAcrossFiles(d.1, key, d.0)];
    }
  }

  lemma AcrossReportsExactly(key: string, dups: seq<(string, seq<string>)>, rep: Report)
    ensures rep in AcrossReports(key, dups) <==>
      rep.DuplicateAcrossFiles? && rep.key == key && (rep.value, rep.files) in dups
  {
    var rs := AcrossReports(key, dups);
    AcrossReportsAt(key, dups);
    if rep in rs {
      var i :| 0 <= i < |rs| && rs[i] == rep;
      assert dups[i] == (rep.value, rep.files);
    }
    if rep.DuplicateAcrossFiles? && rep.key == key && (rep.value, rep.files) in dups {
      var i :| 0 <= i < |dups| && dups[i] == (rep.value, rep.files);
      assert rs[i] == rep;
    }
  }

  /** A string value of `key` is reported as repeated within a document
      exactly when the walk finds it at more than one path, and the report
      lists all those paths in visiting order. The empty string is never
      reported. */
  lemma WithinFileDuplicate(file: string, config: Json, key: string, v: string, paths: seq<string>)
    ensures DuplicateWithinFile(file, key, v, paths) in WithinFileReports(file, config, key) <==>
      v != "" && |LocationsOf(Occurrences(config, key, ""), v)| > 1
      && paths == LocationsOf(Occurrences(config, key, ""), v)
  {
    var m := WithinTracker(config, key);
    TrackedAllGroups(Occurrences(config, key, ""));
    DuplicatesExactly(m);
    WithinReportsExactly(file, key, Duplicates(m), DuplicateWithinFile(file, key, v, paths));
  }

  /** Each repeated value is reported once per document. */
  lemma WithinFileOncePerValue(file: string, config: Json, key: string)
    ensures var rs := WithinFileReports(file, config, key);
      forall i, j :: 0 <= i < j < |rs| ==>
        rs[i].DuplicateWithinFile? && rs[j].DuplicateWithinFile? && rs[i].value != rs[j].value
  {
    var d := Duplicates(WithinTracker(config, key));
    DuplicatesDistinct(WithinTracker(config, key));
    WithinReportsAt(file, key, d);
    var rs := WithinReports(file, key, d);
    assert rs == WithinFileReports(file, config, key);
    forall i, j | 0 <= i < j < |rs|
      ensures rs[i].DuplicateWithinFile? && rs[j].DuplicateWithinFile? && rs[i].value != rs[j].value
    {
      assert rs[i].value == d[i].0 && rs[j].value == d[j].0;
    }
  }

  /** What a file names: an error located in it, or a repeat inside it. */
  predicate NamesFile(rep: Report, file: string)
  {
    || (rep.Error? && StartsWith(rep.error.location, file))
    || (rep.DuplicateWithinFile? && rep.file == file)
  }

  lemma SchemaReportsNameFile(file: string, found: seq<ValidationErrorObject>)
    ensures forall rep :: rep in SchemaReports(file, found) ==> NamesFile(rep, file)
  {
    var rs := SchemaReports(file, found);
    forall rep | rep in rs ensures NamesFile(rep, file) {
      var i :| 0 <= i < |rs| && rs[i] == rep;
      assert rep.error.location == file;
    }
  }

  lemma WithinReportsNameFile(file: string, config: Json, key: string)
    ensures forall rep :: rep in WithinFileReports(file, config, key) ==> NamesFile(rep, file)
  {
    var d := Duplicates(WithinTracker(config, key));
    forall rep | rep in WithinReports(file, key, d) ensures NamesFile(rep, file) {
      WithinReportsExactly(file, key, d, rep);
    }
  }

  /** Every report of a file names that file. */
  lemma FileReportsNameFile(file: string, parsed: Result<Json, YamlParseError>, ajv: Json -> seq<ValidationErrorObject>)
    ensures forall rep :: rep in FileReports(file, parsed, ajv) ==> NamesFile(rep, file)
  {
    match parsed
    case Failure(err) =>
      var loc := ParseError(file, err).location;
      assert loc[..|file|] == file;
    case Success(config) =>
      if Truthy(config) {
        SchemaReportsNameFile(file, ajv(config));
        WithinReportsNameFile(file, config, UniqueWithinFile);
      }
  }

  lemma {:induction false} PerFileReportsNameFiles(files: seq<string>, load: string -> Result<Json, YamlParseError>,
                                                   ajv: Json -> seq<ValidationErrorObject>)
    ensures forall rep :: rep in PerFileReports(files, load, ajv) ==> exists i :: 0 <= i < |files| && NamesFile(rep, files[i])
  {
    if files != [] {
      var init := files[..|files| - 1];
      var last := files[|files| - 1];
      PerFileReportsNameFiles(init, load, ajv);
      FileReportsNameFile(last, load(last), ajv);
      forall rep | rep in PerFileReports(files, load, ajv) ensures exists i :: 0 <= i < |files| && NamesFile(rep, files[i]) {
        if rep in PerFileReports(init, load, ajv) {
          var i :| 0 <= i < |init| && NamesFile(rep, init[i]);
          assert files[i] == init[i];
        } else {
          assert NamesFile(rep, files[|files| - 1]);
        }
      }
    }
  }

  /** No repeat across files comes out of the files' own reports. */
  lemma PerFileReportsNoAcross(files: seq<string>, load: string -> Result<Json, YamlParseError>,
                               ajv: Json -> seq<ValidationErrorObject>, rep: Report)
    requires rep.DuplicateAcrossFiles?
    ensures rep !in PerFileReports(files, load, ajv)
  {
    PerFileReportsNameFiles(files, load, ajv);
  }

  /** An error without a location does not come out of the reports of
      files with non-empty paths. */
  lemma PerFileReportsUnlocated(files: seq<string>, load: string -> Result<Json, YamlParseError>,
                                ajv: Json -> seq<ValidationErrorObject>, rep: Report)
    requires forall i :: 0 <= i < |files| ==> files[i] != ""
    requires rep.Error? && rep.error.location == ""
    ensures rep !in PerFileReports(files, load, ajv)
  {
    PerFileReportsNameFiles(files, load, ajv);
  }

  // ---------------------------------------------------------------------------
  // The across-file reports

  lemma {:induction false} KeyedReportsFrom(keys: seq<string>, ms: seq<Multimap>, rep: Report)
    requires |ms| == |keys|
    requires rep in KeyedReports(keys, ms)
    ensures exists j :: 0 <= j < |keys| && rep in AcrossReports(keys[j], Duplicates(ms[j]))
  {
    var n := |keys| - 1;
    if rep in KeyedReports(keys[..n], ms[..n]) {
      KeyedReportsFrom(keys[..n], ms[..n], rep);
      var j :| 0 <= j < n && rep in AcrossReports(keys[..n][j], Duplicates(ms[..n][j]));
      assert keys[..n][j] == keys[j] && ms[..n][j] == ms[j];
    } else {
      assert rep in AcrossReports(keys[n], Duplicates(ms[n]));
    }
  }

  lemma {:induction false} KeyedReportsInclude(keys: seq<string>, ms: seq<Multimap>, j: nat, rep: Report)
    requires |ms| == |keys| && j < |keys|
    requires rep in AcrossReports(keys[j], Duplicates(ms[j]))
    ensures rep in KeyedReports(keys, ms)
  {
    var n := |keys| - 1;
    var front, back := KeyedReports(keys[..n], ms[..n]), AcrossReports(keys[n], Duplicates(ms[n]));
    assert KeyedReports(keys, ms) == front + back;
    if j < n {
      var init, inner := keys[..n], ms[..n];
      assert init[j] == keys[j] && inner[j] == ms[j];
      KeyedReportsInclude(init, inner, j, rep);
      assert rep in front;
    } else {
      assert j == n;
      assert rep in back;
    }
  }

  /** A report comes out of the keyed reports exactly when it comes out of
      the reports of one of the keys. */
  lemma KeyedReportsExactly(keys: seq<string>, ms: seq<Multimap>, rep: Report)
    requires |ms| == |keys|
    ensures rep in KeyedReports(keys, ms) <==>
      exists j :: 0 <= j < |keys| && rep in AcrossReports(keys[j], Duplicates(ms[j]))
  {
    if rep in KeyedReports(keys, ms) {
      KeyedReportsFrom(keys, ms, rep);
    }
    if exists j :: 0 <= j < |keys| && rep in AcrossReports(keys[j], Duplicates(ms[j])) {
      var j :| 0 <= j < |keys| && rep in AcrossReports(keys[j], Duplicates(ms[j]));
      KeyedReportsInclude(keys, ms, j, rep);
    }
  }

  /** The files paired with `v` are the files, in order, whose `key`
      stringifies to `v` (`undefined` counting as `''`). */
  lemma {:induction false} KeyPairsLocations(configs: map<string, Json>, key: string, files: seq<string>, v: string, f: string)
    requires forall i :: 0 <= i < |files| ==> files[i] in configs
    ensures f in LocationsOf(KeyPairs(configs, key, files), v) <==>
      f in files && PropertyString(configs[f], key).GetOr("") == v
  {
    if files != [] {
      var init := files[..|files| - 1];
      var last := files[|files| - 1];
      KeyPairsLocations(configs, key, init, v, f);
      var pairs := KeyPairs(configs, key, files);
      assert pairs[..|pairs| - 1] == KeyPairs(configs, key, init);
      assert files == init + [last];
    }
  }

  /** A value of `key` is reported as shared by several books exactly when
      `key` is checked, the value is not empty, and more than one recorded
      file has it; the report lists those files in enumeration order. */
  lemma AcrossFileDuplicate(r: Registry, keys: seq<string>, files: seq<string>, key: string, v: string)
    requires RegistryValid(r)
    ensures DuplicateAcrossFiles(files, key, v) in AcrossFileReports(r, keys) <==>
      key in keys && v != "" && |LocationsOf(RegistryPairs(r, key), v)| > 1
      && files == LocationsOf(RegistryPairs(r, key), v)
  {
    var ms := KeyTrackers(r, keys);
    var rep := DuplicateAcrossFiles(files, key, v);
    KeyedReportsExactly(keys, ms, rep);
    forall j | 0 <= j < |keys|
      ensures rep in AcrossReports(keys[j], Duplicates(ms[j])) <==>
        keys[j] == key && v != "" && |LocationsOf(RegistryPairs(r, key), v)| > 1
        && files == LocationsOf(RegistryPairs(r, key), v)
    {
      AcrossReportsExactly(keys[j], Duplicates(ms[j]), rep);
      TrackedAllGroups(RegistryPairs(r, keys[j]));
      DuplicatesExactly(ms[j]);
    }
  }

  /** Only repeats across files come out of the across-file check. */
  lemma AcrossFileKinds(r: Registry, keys: seq<string>, rep: Report)
    requires RegistryValid(r)
    requires rep in AcrossFileReports(r, keys)
    ensures rep.DuplicateAcrossFiles? && rep.key in keys
  {
    var ms := KeyTrackers(r, keys);
    KeyedReportsExactly(keys, ms, rep);
    var j :| 0 <= j < |keys| && rep in AcrossReports(keys[j], Duplicates(ms[j]));
    AcrossReportsExactly(keys[j], Duplicates(ms[j]), rep);
  }

  // ---------------------------------------------------------------------------
  // The whole list

  /** An error without a location is reported exactly when the glob found
      no book file and it is the missing-configuration error. */
  lemma UnlocatedErrors(globbed: seq<string>, searchPaths: seq<string>,
                        load: string -> Result<Json, YamlParseError>, ajv: Json -> seq<ValidationErrorObject>,
                        e: ConfigError)
    requires e.location == ""
    ensures Error(e) in Validation(globbed, searchPaths, load, ajv) <==>
      BookFiles(globbed) == [] && e == MissingConfigError(searchPaths)
  {
    var files := BookFiles(globbed);
    if files != [] {
      var rep := Error(e);
      var r := RegistryOf(files, load);
      BookFilesNamed(globbed);
      PerFileReportsUnlocated(files, load, ajv, rep);
      if rep in AcrossFileReports(r, UniqueAcrossFiles) {
        AcrossFileKinds(r, UniqueAcrossFiles, rep);
        assert false;
      }
      assert Validation(globbed, searchPaths, load, ajv)
        == PerFileReports(files, load, ajv) + AcrossFileReports(r, UniqueAcrossFiles);
    }
  }

  /** The missing-configuration error is reported exactly when the glob
      found no book file, and then it is the only report. */
  lemma MissingConfigExactly(globbed: seq<string>, searchPaths: seq<string>,
                             load: string -> Result<Json, YamlParseError>, ajv: Json -> seq<ValidationErrorObject>)
    ensures Error(MissingConfigError(searchPaths)) in Validation(globbed, searchPaths, load, ajv) <==> BookFiles(globbed) == []
    ensures BookFiles(globbed) == [] ==> Validation(globbed, searchPaths, load, ajv) == [Error(MissingConfigError(searchPaths))]
  {
    UnlocatedErrors(globbed, searchPaths, load, ajv, MissingConfigError(searchPaths));
  }

  /** The across-file reports are the books sharing a `sortOrder`, then the
      books sharing a `name`. */
  lemma AcrossFileOrder(r: Registry)
    requires RegistryValid(r)
    ensures AcrossFileReports(r, UniqueAcrossFiles)
      == AcrossReports("sortOrder", Duplicates(KeyTracker(r, "sortOrder")))
        + AcrossReports("name", Duplicates(KeyTracker(r, "name")))
  {
    var keys := UniqueAcrossFiles;
    var ms := KeyTrackers(r, keys);
    assert keys[..1] == ["sortOrder"] && keys[..1][..0] == [];
    assert ms[..1][..0] == [];
    assert KeyedReports(keys[..1], ms[..1]) == AcrossReports("sortOrder", Duplicates(ms[0]));
  }

  /** Books are reported as sharing a value of `sortOrder` or `name` exactly
      when more than one book file that parsed to a document has that
      (non-empty) value; the report lists them in the order they were read. */
  lemma BooksSharingValue(globbed: seq<string>, searchPaths: seq<string>,
                          load: string -> Result<Json, YamlParseError>, ajv: Json -> seq<ValidationErrorObject>,
                          files: seq<string>, key: string, v: string)
    requires BookFiles(globbed) != []
    ensures var r := RegistryOf(BookFiles(globbed), load);
      DuplicateAcrossFiles(files, key, v) in Validation(globbed, searchPaths, load, ajv) <==>
        key in UniqueAcrossFiles && v != "" && |files| > 1
        && files == LocationsOf(KeyPairs(r.configs, key, r.order), v)
  {
    var books := BookFiles(globbed);
    var r := RegistryOf(books, load);
    BookFilesNamed(globbed);
    FileOrderOfBooks(books, load);
    AcrossFileDuplicate(r, UniqueAcrossFiles, files, key, v);
    PerFileReportsNoAcross(books, load, ajv, DuplicateAcrossFiles(files, key, v));
    assert Validation(globbed, searchPaths, load, ajv)
      == PerFileReports(books, load, ajv) + AcrossFileReports(r, UniqueAcrossFiles);
  }
}
