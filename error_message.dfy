/** `format_error_message` of `src/main.ts`: the text the action fails with,
    a header sentence followed by one block per error, separated by blank
    lines. */
module ErrorMessage {
  import opened Strings
  import opened Errors

  const Header := "Some errors were found when validating the book configuration files"

  /** The block of one error, built as `format_error_message` builds it: the
      description and location lines, and the suggestion line only when the
      suggestion is not `''`. */
  function Block(e: ConfigError): string
  {
    var messages := ["Description: " + e.description, "Location: " + e.location];
    var messages := if e.suggestion != "" then messages + ["Suggestion: " + e.suggestion] else messages;
    Join(messages, "\n")
  }

  function Blocks(errors: seq<ConfigError>): (r: seq<string>)
    ensures |r| == |errors|
    ensures forall i :: 0 <= i < |errors| ==> r[i] == Block(errors[i])
  {
    seq(|errors|, i requires 0 <= i < |errors| => Block(errors[i]))
  }

  /** `format_error_message(validation_errors)` */
  function FormatErrorMessage(errors: seq<ConfigError>): string
  {
    Join([Header] + Blocks(errors), "\n\n")
  }

  /** A block is laid out as `toString` lays out the error. */
  lemma BlockIsToString(e: ConfigError)
    ensures Block(e) == ToString(e)
  {
    var messages := ["Description: " + e.description, "Location: " + e.location];
    if e.suggestion != "" {
      assert messages + ["Suggestion: " + e.suggestion] == Lines(e);
    } else {
      assert messages == Lines(e);
    }
  }

  /** No errors: the header alone. */
  lemma FormatNoErrors()
    ensures FormatErrorMessage([]) == Header
  {
    assert [Header] + Blocks([]) == [Header];
  }

  /** Each further error appends a blank line and its block. */
  lemma FormatSnoc(errors: seq<ConfigError>, e: ConfigError)
    ensures FormatErrorMessage(errors + [e]) == FormatErrorMessage(errors) + "\n\n" + ToString(e)
  {
    assert [Header] + Blocks(errors + [e]) == ([Header] + Blocks(errors)) + [Block(e)];
    JoinSnoc([Header] + Blocks(errors), Block(e), "\n\n");
    BlockIsToString(e);
  }

  /** The message is the header followed, for each error in list order, by
      a blank line and that error's block. */
  lemma {:induction false} FormatLayout(errors: seq<ConfigError>)
    ensures FormatErrorMessage(errors) == Header + Rendered(errors)
  {
    if errors == [] {
      FormatNoErrors();
      assert Header + "" == Header;
    } else {
      var init := errors[..|errors| - 1];
      var last := errors[|errors| - 1];
      assert errors == init + [last];
      FormatLayout(init);
      FormatSnoc(init, last);
      Regroup(Header, Rendered(init), "\n\n", ToString(last));
    }
  }

  lemma Regroup(a: string, b: string, c: string, d: string)
    ensures a + b + c + d == a + (b + c + d)
  {
  }

  /** The message begins with the header. */
  lemma FormatStartsWithHeader(errors: seq<ConfigError>)
    ensures StartsWith(FormatErrorMessage(errors), Header)
  {
    FormatLayout(errors);
    var m := Header + Rendered(errors);
    assert m[..|Header|] == Header;
  }

  /** Every error's block, each preceded by a blank line. */
  function Rendered(errors: seq<ConfigError>): string
  {
    if errors == [] then "" else Rendered(errors[..|errors| - 1]) + "\n\n" + ToString(errors[|errors| - 1])
  }

  /** Every error's block appears in the message. */
  lemma {:induction false} FormatNamesEveryError(errors: seq<ConfigError>, i: nat)
    requires i < |errors|
    ensures Contains(FormatErrorMessage(errors), ToString(errors[i]))
  {
    BlockIsToString(errors[i]);
    var parts := [Header] + Blocks(errors);
    assert parts[i + 1] == Block(errors[i]);
    JoinContainsPart(parts, "\n\n", i + 1);
  }

  /** A block ends with its suggestion line exactly when the suggestion is
      not empty, and with its location line otherwise. */
  lemma BlockSuggestionLine(e: ConfigError)
    ensures e.suggestion != "" ==> EndsWith(Block(e), "\n" + ("Suggestion: " + e.suggestion))
    ensures e.suggestion == "" ==> EndsWith(Block(e), "\n" + ("Location: " + e.location))
  {
    BlockIsToString(e);
    ToStringText(e);
    var b := Block(e);
    if e.suggestion != "" {
      var t := "\n" + ("Suggestion: " + e.suggestion);
      assert b[|b| - |t|..] == t;
    } else {
      var t := "\n" + ("Location: " + e.location);
      assert b[|b| - |t|..] == t;
    }
  }
}
