/** The error values of `src/errors.ts`: every error carries a description, a
    location and a suggestion, and renders as a two- or three-line block. The
    constructors assign each field once, so they are modelled as functions
    that build the value. */
module Errors {
  import opened Wrappers
  import opened Strings

  /** `IConfigError`, the fields every `BaseConfigError` carries. */
  datatype ConfigError = ConfigError(description: string, location: string, suggestion: string)

  /** The lines `toString` joins: the suggestion line only when the suggestion
      is non-empty (`if (this.suggestion)`). */
  function Lines(e: ConfigError): seq<string>
  {
    ["Description: " + e.description, "Location: " + e.location]
      + (if e.suggestion != "" then ["Suggestion: " + e.suggestion] else [])
  }

  /** `BaseConfigError.toString()`, before `relativizePaths` is applied. */
  function ToString(e: ConfigError): string
  {
    Join(Lines(e), "\n")
  }

  /** The rendering spelled out: the description line, the location line and,
      for a non-empty suggestion, the suggestion line, separated by line breaks. */
  lemma ToStringText(e: ConfigError)
    ensures e.suggestion != "" ==>
      ToString(e) == ("Description: " + e.description) + "\n" + ("Location: " + e.location) + "\n" + ("Suggestion: " + e.suggestion)
    ensures e.suggestion == "" ==>
      ToString(e) == ("Description: " + e.description) + "\n" + ("Location: " + e.location)
  {
    var a := "Description: " + e.description;
    var b := "Location: " + e.location;
    if e.suggestion != "" {
      var c := "Suggestion: " + e.suggestion;
      ThreeLines(a, b, c);
      assert Lines(e) == [a, b, c];
    } else {
      TwoLines(a, b);
      assert Lines(e) == [a, b];
    }
  }

  lemma TwoLines(a: string, b: string)
    ensures Join([a, b], "\n") == a + "\n" + b
  {
    assert [a, b][1..] == [b];
  }

  lemma ThreeLines(a: string, b: string, c: string)
    ensures Join([a, b, c], "\n") == a + "\n" + b + "\n" + c
  {
    assert [a, b, c][1..] == [b, c];
    TwoLines(b, c);
  }

  /** When no field holds a line break, the rendering consists of exactly the
      lines `Lines(e)`: two, or three when there is a suggestion. */
  lemma ToStringLineCount(e: ConfigError)
    requires Count(e.description, '\n') == 0 && Count(e.location, '\n') == 0 && Count(e.suggestion, '\n') == 0
    ensures Count(ToString(e), '\n') == if e.suggestion == "" then 1 else 2
  {
    var lines := Lines(e);
    assert ToString(e) == Join(lines, ['\n']);
    TaggedLineCount("Description: ", e.description);
    TaggedLineCount("Location: ", e.location);
    TaggedLineCount("Suggestion: ", e.suggestion);
    assert forall i :: 0 <= i < |lines| ==> Count(lines[i], '\n') == 0;
    JoinCount(lines, '\n');
  }

  /** None of the three tags holds a line break, so a tagged field is one line. */
  lemma TaggedLineCount(tag: string, field: string)
    requires tag in {"Description: ", "Location: ", "Suggestion: "}
    requires Count(field, '\n') == 0
    ensures Count(tag + field, '\n') == 0
  {
    CountNone(tag, '\n');
    PrefixedLineCount(tag, field);
  }

  lemma PrefixedLineCount(tag: string, field: string)
    requires Count(tag, '\n') == 0 && Count(field, '\n') == 0
    ensures Count(tag + field, '\n') == 0
  {
    CountConcat(tag, field, '\n');
  }

  /** The `params` of an Ajv error object, as far as the classifiers look at
      them; `None` stands for `undefined`. */
  datatype ErrorParams = ErrorParams(missingProperty: Option<string>, instancePath: Option<string>, message: Option<string>)

  /** An Ajv error object: its `params` and its optional `message`. */
  datatype ValidationErrorObject = ValidationErrorObject(params: ErrorParams, message: Option<string>)

  /** `isRequiredParams`: `missingProperty !== undefined`. */
  predicate IsRequiredParams(params: ErrorParams)
  {
    params.missingProperty.Some?
  }

  /** `isTypeParams`: both `instancePath` and `message` of the params are defined. */
  predicate IsTypeParams(params: ErrorParams)
  {
    params.instancePath.Some? && params.message.Some?
  }

  /** A template literal `${x}` of a value that may be `undefined`. */
  function Interpolate(x: Option<string>): string
  {
    x.GetOr("undefined")
  }

  /** `instancePath.slice(1).replace(/\//g, '.')`: an instance path such as
      `/chapters/0/name` becomes `chapters.0.name`. */
  function DottedPath(instancePath: string): string
  {
    ReplaceChar(if instancePath == "" then "" else instancePath[1..], '/', '.')
  }

  /** The dotted path drops the leading character, turns every `/` into `.`
      and keeps every other character, so no `/` is left. */
  lemma DottedPathShape(instancePath: string)
    ensures var r := DottedPath(instancePath);
      && |r| == (if instancePath == "" then 0 else |instancePath| - 1)
      && (forall i :: 0 <= i < |r| ==> r[i] == if instancePath[i + 1] == '/' then '.' else instancePath[i + 1])
      && (forall i :: 0 <= i < |r| ==> r[i] != '/')
  {
  }

  const ValidationSuggestion := "Ensure all properties are correctly set based on the schema."

  /** `new ValidationError(file, error)`: the missing-property reading wins over
      the type reading, which wins over the validator's own message. */
  function ValidationError(file: string, error: ValidationErrorObject): ConfigError
  {
    var description :=
      if IsRequiredParams(error.params) then
        "Missing required property '" + error.params.missingProperty.value + "'"
      else if IsTypeParams(error.params) then
        "The type of property '" + DottedPath(error.params.instancePath.value) + "' " + Interpolate(error.message)
      else
        error.message.GetOr("Unknown validation error");
    ConfigError(description, file, ValidationSuggestion)
  }

  /** A missing-property error quotes the property's name, and its description
      depends on nothing else: not on the file, the validator's message or the
      other params. */
  lemma ValidationErrorRequiredNamesProperty(file: string, error: ValidationErrorObject, otherFile: string, other: ValidationErrorObject)
    requires IsRequiredParams(error.params)
    requires other.params.missingProperty == error.params.missingProperty
    ensures var e := ValidationError(file, error);
      && e.location == file && e.suggestion == ValidationSuggestion
      && Contains(e.description, "'" + error.params.missingProperty.value + "'")
      && ValidationError(otherFile, other).description == e.description
  {
    var quoted := "'" + error.params.missingProperty.value + "'";
    assert ValidationError(file, error).description == "Missing required property " + quoted + "";
    ContainsSelf(quoted);
    ContainsWiden("Missing required property ", quoted, "", quoted);
  }

  /** A type error names the property by its dotted path, closes the quote and
      goes on with the error's message, or with `undefined` when it has none. */
  lemma ValidationErrorTypeDescription(file: string, error: ValidationErrorObject)
    requires !IsRequiredParams(error.params) && IsTypeParams(error.params)
    ensures var d := ValidationError(file, error).description;
      && Contains(d, DottedPath(error.params.instancePath.value) + "' " + Interpolate(error.message))
      && EndsWith(d, error.message.GetOr("undefined"))
  {
    var m := Interpolate(error.message);
    var tail := DottedPath(error.params.instancePath.value) + "' " + m;
    var head := "The type of property '" + DottedPath(error.params.instancePath.value) + "' ";
    var d := ValidationError(file, error).description;
    assert d == "The type of property '" + tail;
    TailOf("The type of property '", tail);
    assert d == head + m;
    TailOf(head, m);
  }

  /** The second part of a concatenation occurs in it and ends it. */
  lemma TailOf(a: string, t: string)
    ensures Contains(a + t, t) && EndsWith(a + t, t)
  {
    assert (a + t)[|a|..|a| + |t|] == t;
    ContainsAt(a + t, t, |a|);
  }

  /** The text of the params' own message is never shown by a type error: only
      its presence selects the reading. */
  lemma ValidationErrorIgnoresParamsMessage(file: string, error: ValidationErrorObject, other: ValidationErrorObject)
    requires !IsRequiredParams(error.params) && IsTypeParams(error.params)
    requires other.params.missingProperty.None? && other.params.instancePath == error.params.instancePath
    requires other.params.message.Some? && other.message == error.message
    ensures ValidationError(file, other).description == ValidationError(file, error).description
  {
  }

  /** An error object with neither reading and no message of its own. */
  lemma UnknownValidationError(file: string, params: ErrorParams)
    requires !IsRequiredParams(params) && !IsTypeParams(params)
    ensures ValidationError(file, ValidationErrorObject(params, None)).description == "Unknown validation error"
  {
  }

  /** `/chapters/0/name` reads as `chapters.0.name`: the path is replaced
      segment by segment. */
  lemma DottedPathExample()
    ensures DottedPath("/chapters/0/name") == "chapters.0.name"
  {
    ExamplePathPieces();
    var a, b, c, d, e := "chapters", "/", "0", "/", "name";
    ReplaceCharConcat(a, b, '/', '.');
    ReplaceCharConcat(a + b, c, '/', '.');
    ReplaceCharConcat(a + b + c, d, '/', '.');
    ReplaceCharConcat(a + b + c + d, e, '/', '.');
    ExampleFirstSegmentReplaced();
    ExampleSegmentsReplaced();
  }

  /** The example path without its leading `/`, cut at its slashes, and the
      dotted path glued from the same segments. */
  lemma ExamplePathPieces()
    ensures "/chapters/0/name"[1..] == "chapters" + "/" + "0" + "/" + "name"
    ensures "chapters" + "." + "0" + "." + "name" == "chapters.0.name"
  {
  }

  /** Each segment of the example path is its own dotted form; a slash becomes a dot. */
  lemma ExampleSegmentsReplaced()
    ensures ReplaceChar("0", '/', '.') == "0"
    ensures ReplaceChar("name", '/', '.') == "name"
    ensures ReplaceChar("/", '/', '.') == "."
  {
  }

  lemma ExampleFirstSegmentReplaced()
    ensures ReplaceChar("chapters", '/', '.') == "chapters"
  {
  }

  /** A string-typed property given another type, at `/chapters/0/name`. */
  lemma TypeErrorExample(file: string)
    ensures ValidationError(file, ValidationErrorObject(ErrorParams(None, Some("/chapters/0/name"), Some("must be string")), Some("must be string"))).description
      == "The type of property 'chapters.0.name' must be string"
  {
    var d := ValidationError(file, ValidationErrorObject(ErrorParams(None, Some("/chapters/0/name"), Some("must be string")), Some("must be string"))).description;
    assert d == "The type of property '" + DottedPath("/chapters/0/name") + "' " + "must be string";
    DottedPathExample();
    TypeErrorExampleText();
  }

  lemma TypeErrorExampleText()
    ensures "The type of property '" + "chapters.0.name" + "' " + "must be string" == "The type of property 'chapters.0.name' must be string"
  {
  }

  /** The first entry of a YAML parse error's `linePos`. */
  datatype LinePos = LinePos(line: nat, col: nat)

  /** A YAML parse error: its message and `linePos?.[0]`. */
  datatype YamlParseError = YamlParseError(message: string, start: Option<LinePos>)

  /** `extractLocation`: `line:col`, or nothing when the position is unknown. */
  function ExtractLocation(err: YamlParseError): (r: string)
    ensures r == "" <==> err.start.None?
  {
    match err.start
    case Some(p) => NatToString(p.line) + ":" + NatToString(p.col)
    case None => ""
  }

  /** `new ParseError(file, err)` */
  function ParseError(file: string, err: YamlParseError): ConfigError
  {
    ConfigError(err.message, file + ":" + ExtractLocation(err), "Fix YAML in the offending config file.")
  }

  /** Reads back a `line:col` text; the inverse of `ExtractLocation`. */
  function ReadLinePos(t: string): Option<LinePos>
  {
    var k := IndexOf(t, ':');
    if k < |t| && k > 0 && AllDigits(t[..k]) && AllDigits(t[k + 1..]) && k + 1 < |t| then
      Some(LinePos(DigitsValue(t[..k]), DigitsValue(t[k + 1..])))
    else None
  }

  /** The index of the first `c` in `s`, or `|s|` when there is none. */
  function IndexOf(s: string, c: char): (k: nat)
    ensures k <= |s| && (k < |s| ==> s[k] == c)
    ensures forall i :: 0 <= i < k ==> s[i] != c
  {
    if s == [] then 0 else if s[0] == c then 0 else 1 + IndexOf(s[1..], c)
  }

  /** A parse error carries the parser's message, and its location is the
      file, a colon, and a position text from which the parser's line and
      column read back exactly (nothing follows the colon when the position
      is unknown). */
  lemma ParseErrorLocationRoundTrip(file: string, err: YamlParseError)
    ensures ParseError(file, err).description == err.message
    ensures ParseError(file, err).suggestion == "Fix YAML in the offending config file."
    ensures var loc := ParseError(file, err).location;
      StartsWith(loc, file + ":") && ReadLinePos(loc[|file| + 1..]) == err.start
    ensures err.start.None? ==> ParseError(file, err).location == file + ":"
  {
    var loc := ParseError(file, err).location;
    assert loc[..|file| + 1] == file + ":";
    assert loc[|file| + 1..] == ExtractLocation(err);
    if err.start.Some? {
      ReadLinePosInverse(err.start.value);
    }
  }

  lemma ReadLinePosInverse(p: LinePos)
    ensures ReadLinePos(NatToString(p.line) + ":" + NatToString(p.col)) == Some(p)
  {
    var a := NatToString(p.line);
    var b := NatToString(p.col);
    var t := a + ":" + b;
    NatToStringRoundTrip(p.line);
    NatToStringRoundTrip(p.col);
    forall i | 0 <= i < |a| ensures t[i] != ':' {
      assert t[i] == a[i] && IsDigit(a[i]);
    }
    assert t[|a|] == ':';
    assert IndexOf(t, ':') == |a|;
    assert t[..|a|] == a;
    assert t[|a| + 1..] == b;
  }

  /** `new MissingConfigError(searchPaths)` */
  function MissingConfigError(searchPaths: seq<string>): ConfigError
  {
    ConfigError(
      MissingConfigLead + Join(searchPaths, ", "),
      "",
      "Add at least one valid book configuration file with the `.book.yml` extension.")
  }

  const MissingConfigLead := "No config files found. Searched paths: "

  /** A missing-configuration error has no location; its description is a
      fixed sentence followed by the search paths joined by `, `, so it names
      every search path. */
  lemma MissingConfigNamesPaths(searchPaths: seq<string>, i: nat)
    requires i < |searchPaths|
    ensures MissingConfigError(searchPaths).location == ""
    ensures var d := MissingConfigError(searchPaths).description;
      StartsWith(d, MissingConfigLead) && d[|MissingConfigLead|..] == Join(searchPaths, ", ")
    ensures Contains(MissingConfigError(searchPaths).description, searchPaths[i])
  {
    var j := Join(searchPaths, ", ");
    var d := MissingConfigLead + j;
    assert d[..|MissingConfigLead|] == MissingConfigLead;
    assert d[|MissingConfigLead|..] == j;
    JoinContainsPart(searchPaths, ", ", i);
    ContainsWiden(MissingConfigLead, j, "", searchPaths[i]);
    assert MissingConfigLead + j + "" == d;
  }

  /** `new RequiredUniqueError(files, key, value)` */
  function RequiredUniqueError(files: seq<string>, key: string, value: string): ConfigError
  {
    ConfigError(
      "Some books have the same value for '" + key + "' ('" + value + "'): " + Join(files, ", "),
      "",
      "Ensure all books have unique values for '" + key + "'.")
  }

  /** A uniqueness error has no location, and its description begins by
      naming the key and names every file that shares the value. */
  lemma RequiredUniqueNamesFiles(files: seq<string>, key: string, value: string, i: nat)
    requires i < |files|
    ensures RequiredUniqueError(files, key, value).location == ""
    ensures StartsWith(RequiredUniqueError(files, key, value).description, "Some books have the same value for '" + key + "'")
    ensures Contains(RequiredUniqueError(files, key, value).description, files[i])
  {
    var head := "Some books have the same value for '" + key + "' ('" + value + "'): ";
    var d := RequiredUniqueError(files, key, value).description;
    assert d == head + Join(files, ", ");
    var lead := "Some books have the same value for '" + key + "'";
    assert head == lead + " ('" + value + "'): ";
    assert d[..|lead|] == lead;
    JoinContainsPart(files, ", ", i);
    ContainsWiden(head, Join(files, ", "), "", files[i]);
    assert head + Join(files, ", ") + "" == d;
  }

  /** The description of a uniqueness error names the shared value, and its
      suggestion names the key. */
  lemma RequiredUniqueNamesValue(files: seq<string>, key: string, value: string)
    ensures Contains(RequiredUniqueError(files, key, value).description, "('" + value + "')")
    ensures Contains(RequiredUniqueError(files, key, value).suggestion, "'" + key + "'")
  {
    var e := RequiredUniqueError(files, key, value);
    var lead := "Some books have the same value for '" + key + "' ";
    var quoted := "('" + value + "')";
    var tail := ": " + Join(files, ", ");
    assert e.description == lead + quoted + tail;
    ContainsSelf(quoted);
    ContainsWiden(lead, quoted, tail, quoted);
    var named := "'" + key + "'";
    assert e.suggestion == "Ensure all books have unique values for " + named + ".";
    ContainsSelf(named);
    ContainsWiden("Ensure all books have unique values for ", named, ".", named);
  }

  /** The two descriptions the validator's tests look for. */
  lemma MissingNameDescription(file: string)
    ensures ValidationError(file, ValidationErrorObject(ErrorParams(Some("name"), None, None), Some("must have required property 'name'"))).description
      == "Missing required property 'name'"
    ensures ValidationError(file, ValidationErrorObject(ErrorParams(None, None, None), Some("must be integer"))).description
      == "must be integer"
  {
  }
}
