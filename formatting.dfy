/** The text helpers of `src/formatting.ts`. */
module Formatting {
  import opened Strings

  /** One line of a bulleted list: the indent (two spaces per level), the
      bullet, a space and the text. */
  function BulletLine(indentLevel: nat, bulletChar: string, x: string): (r: string)
    ensures |r| == 2 * indentLevel + |bulletChar| + 1 + |x|
    ensures EndsWith(r, " " + x)
  {
    var r := Repeat("  ", indentLevel) + bulletChar + " " + x;
    assert r[|r| - |" " + x|..] == " " + x;
    r
  }

  function BulletLines(bullets: seq<string>, indentLevel: nat, bulletChar: string): (r: seq<string>)
    ensures |r| == |bullets|
    ensures forall i :: 0 <= i < |bullets| ==> r[i] == BulletLine(indentLevel, bulletChar, bullets[i])
  {
    seq(|bullets|, i requires 0 <= i < |bullets| => BulletLine(indentLevel, bulletChar, bullets[i]))
  }

  /** `bullet_list(message, bullets, indent_level = 1, bullet_char = '-')`:
      the message on its own line, then one line per bullet. */
  function BulletList(message: string, bullets: seq<string>, indentLevel: nat := 1, bulletChar: string := "-"): string
  {
    message + "\n" + Join(BulletLines(bullets, indentLevel, bulletChar), "\n")
  }

  /** Without bullets the message is followed by a lone line break. */
  lemma BulletListEmpty(message: string, indentLevel: nat, bulletChar: string)
    ensures BulletList(message, [], indentLevel, bulletChar) == message + "\n"
  {
  }

  /** Each further bullet adds one line at the end. */
  lemma BulletListSnoc(message: string, bullets: seq<string>, b: string, indentLevel: nat, bulletChar: string)
    requires bullets != []
    ensures BulletList(message, bullets + [b], indentLevel, bulletChar)
      == BulletList(message, bullets, indentLevel, bulletChar) + "\n" + BulletLine(indentLevel, bulletChar, b)
  {
    var lines := BulletLines(bullets, indentLevel, bulletChar);
    assert BulletLines(bullets + [b], indentLevel, bulletChar) == lines + [BulletLine(indentLevel, bulletChar, b)];
    JoinSnoc(lines, BulletLine(indentLevel, bulletChar, b), "\n");
  }

  /** When no text holds a line break, the list has exactly one line per
      bullet below the message: one line break per bullet. */
  lemma BulletListLineCount(message: string, bullets: seq<string>, indentLevel: nat, bulletChar: string)
    requires Count(message, '\n') == 0 && Count(bulletChar, '\n') == 0
    requires forall i :: 0 <= i < |bullets| ==> Count(bullets[i], '\n') == 0
    requires bullets != []
    ensures Count(BulletList(message, bullets, indentLevel, bulletChar), '\n') == |bullets|
  {
    var lines := BulletLines(bullets, indentLevel, bulletChar);
    forall i | 0 <= i < |lines| ensures Count(lines[i], '\n') == 0 {
      IndentHasNoBreak(indentLevel);
      CountConcat(Repeat("  ", indentLevel), bulletChar, '\n');
      CountConcat(Repeat("  ", indentLevel) + bulletChar, " ", '\n');
      CountConcat(Repeat("  ", indentLevel) + bulletChar + " ", bullets[i], '\n');
    }
    JoinLineCount(lines);
    CountConcat(message, "\n", '\n');
    CountConcat(message + "\n", Join(lines, "\n"), '\n');
  }

  lemma {:induction false} IndentHasNoBreak(n: nat)
    ensures Count(Repeat("  ", n), '\n') == 0
  {
    if n > 0 {
      IndentHasNoBreak(n - 1);
      CountConcat("  ", Repeat("  ", n - 1), '\n');
    }
  }

  lemma JoinLineCount(lines: seq<string>)
    requires lines != []
    requires forall i :: 0 <= i < |lines| ==> Count(lines[i], '\n') == 0
    ensures Count(Join(lines, "\n"), '\n') == |lines| - 1
  {
    if |lines| == 1 {
    } else {
      JoinCount(lines, '\n');
    }
  }

  /** A bullet at the default level, and one level deeper. */
  lemma DashBullets(x: string)
    ensures BulletLine(1, "-", x) == "  - " + x
    ensures BulletLine(2, "-", x) == "    - " + x
  {
    assert Repeat("  ", 1) == "  ";
    assert Repeat("  ", 2) == "    ";
    assert "  " + "-" + " " == "  - ";
    assert "    " + "-" + " " == "    - ";
  }

  /** The formatter's first test: a flat list at the default indent. */
  lemma FlatListExample()
    ensures BulletList("hello hello", ["a", "b", "c"]) == "hello hello\n  - a\n  - b\n  - c"
  {
    BulletListLines("hello hello", ["a", "b", "c"], 1, "-");
    DashBullets("a");
    DashBullets("b");
    DashBullets("c");
    assert "  - " + "a" == "  - a" && "  - " + "b" == "  - b" && "  - " + "c" == "  - c";
    assert BulletLines(["a", "b", "c"], 1, "-") == ["  - a", "  - b", "  - c"];
    assert ["hello hello"] + ["  - a", "  - b", "  - c"] == ["hello hello", "  - a", "  - b", "  - c"];
    FlatLines();
  }

  /** The flat test's expected text, line by line. */
  lemma FlatLines()
    ensures Join(["hello hello", "  - a", "  - b", "  - c"], "\n") == "hello hello\n  - a\n  - b\n  - c"
  {
    JoinFour("hello hello", "  - a", "  - b", "  - c", "\n");
    assert "hello hello" + "\n" + "  - a" + "\n" + "  - b" + "\n" + "  - c" == "hello hello\n  - a\n  - b\n  - c";
  }

  lemma JoinThree(a: string, b: string, c: string, sep: string)
    ensures Join([a, b, c], sep) == a + sep + b + sep + c
  {
    var parts := [a, b, c];
    assert parts[1..] == [b, c] && parts[1..][1..] == [c];
    assert Join([b, c], sep) == b + sep + c;
  }

  lemma JoinFour(a: string, b: string, c: string, d: string, sep: string)
    ensures Join([a, b, c, d], sep) == a + sep + b + sep + c + sep + d
  {
    var parts := [a, b, c, d];
    assert parts[1..] == [b, c, d] && parts[1..][1..] == [c, d] && parts[1..][1..][1..] == [d];
    assert Join([c, d], sep) == c + sep + d;
    assert Join([b, c, d], sep) == b + sep + (c + sep + d);
  }

  /** A list with bullets is its message line and its bullet lines, joined
      by line breaks. */
  lemma BulletListLines(message: string, bullets: seq<string>, indentLevel: nat, bulletChar: string)
    requires bullets != []
    ensures BulletList(message, bullets, indentLevel, bulletChar)
      == Join([message] + BulletLines(bullets, indentLevel, bulletChar), "\n")
  {
    var lines := [message] + BulletLines(bullets, indentLevel, bulletChar);
    assert lines[0] == message && lines[1..] == BulletLines(bullets, indentLevel, bulletChar);
  }

  lemma {:induction false} JoinAppend(a: seq<string>, b: seq<string>, sep: string)
    requires a != [] && b != []
    ensures Join(a + b, sep) == Join(a, sep) + sep + Join(b, sep)
  {
    if |a| > 1 {
      JoinAppend(a[1..], b, sep);
      assert (a + b)[1..] == a[1..] + b;
    } else {
      assert (a + b)[1..] == b;
    }
  }

  /** A bullet whose text spans several lines indents only its first line. */
  lemma BulletOfLines(indentLevel: nat, bulletChar: string, first: string, rest: seq<string>)
    requires rest != []
    ensures BulletLine(indentLevel, bulletChar, Join([first] + rest, "\n"))
      == Join([BulletLine(indentLevel, bulletChar, first)] + rest, "\n")
  {
    var lines := [first] + rest;
    assert lines[0] == first && lines[1..] == rest;
    var lines' := [BulletLine(indentLevel, bulletChar, first)] + rest;
    assert lines'[0] == BulletLine(indentLevel, bulletChar, first) && lines'[1..] == rest;
  }

  /** A list of two bullets at indent level 2. */
  lemma InnerList(next: string, x: string, y: string)
    ensures BulletList(next, [x, y], 2) == Join([next, "    - " + x, "    - " + y], "\n")
  {
    BulletListLines(next, [x, y], 2, "-");
    DashBullets(x);
    DashBullets(y);
    assert BulletLines([x, y], 2, "-") == ["    - " + x, "    - " + y];
    assert [next] + ["    - " + x, "    - " + y] == [next, "    - " + x, "    - " + y];
  }

  /** Such a list as a bullet at the default level. */
  lemma InnerListAsBullet(next: string, x: string, y: string)
    ensures BulletLine(1, "-", BulletList(next, [x, y], 2))
      == Join(["  - " + next, "    - " + x, "    - " + y], "\n")
  {
    InnerList(next, x, y);
    assert [next, "    - " + x, "    - " + y] == [next] + ["    - " + x, "    - " + y];
    BulletOfLines(1, "-", next, ["    - " + x, "    - " + y]);
    DashBullets(next);
    assert [BulletLine(1, "-", next)] + ["    - " + x, "    - " + y]
      == ["  - " + next, "    - " + x, "    - " + y];
  }

  /** Two lists at indent level 2 as the bullets of a list at the default
      level: seven lines, each inner bullet two levels deep. */
  lemma NestedList(top: string, next: string, x1: string, y1: string, x2: string, y2: string)
    ensures BulletList(top, [BulletList(next, [x1, y1], 2), BulletList(next, [x2, y2], 2)])
      == Join([top, "  - " + next, "    - " + x1, "    - " + y1, "  - " + next, "    - " + x2, "    - " + y2], "\n")
  {
    var a, b := BulletList(next, [x1, y1], 2), BulletList(next, [x2, y2], 2);
    var first := ["  - " + next, "    - " + x1, "    - " + y1];
    var second := ["  - " + next, "    - " + x2, "    - " + y2];
    var j1, j2 := Join(first, "\n"), Join(second, "\n");
    InnerListAsBullet(next, x1, y1);
    InnerListAsBullet(next, x2, y2);
    BulletListLines(top, [a, b], 1, "-");
    assert BulletLines([a, b], 1, "-") == [j1, j2];
    // the list: the message, then the two bullets
    assert [top] + [j1, j2] == [top] + ([j1] + [j2]);
    JoinAppend([top], [j1, j2], "\n");
    JoinAppend([j1], [j2], "\n");
    // the expected lines: the message, then the lines of each bullet
    JoinAppend([top], first + second, "\n");
    JoinAppend(first, second, "\n");
    assert [top] + (first + second) == [top, "  - " + next, "    - " + x1, "    - " + y1, "  - " + next, "    - " + x2, "    - " + y2];
  }

  /** The formatter's nesting test. */
  lemma NestedListExample()
    ensures BulletList("top-level", [BulletList("next-level", ["c", "d"], 2), BulletList("next-level", ["e", "f"], 2)])
      == "top-level\n" + "  - next-level\n    - c\n    - d\n" + "  - next-level\n    - e\n    - f"
  {
    NestedList("top-level", "next-level", "c", "d", "e", "f");
    assert "  - " + "next-level" == "  - next-level";
    assert "    - " + "c" == "    - c" && "    - " + "d" == "    - d";
    assert "    - " + "e" == "    - e" && "    - " + "f" == "    - f";
    NestedLines();
  }

  /** The nesting test's expected text, line by line. */
  lemma NestedLines()
    ensures Join(["top-level", "  - next-level", "    - c", "    - d", "  - next-level", "    - e", "    - f"], "\n")
      == "top-level\n" + "  - next-level\n    - c\n    - d\n" + "  - next-level\n    - e\n    - f"
  {
    var first := ["top-level", "  - next-level", "    - c", "    - d"];
    var second := ["  - next-level", "    - e", "    - f"];
    assert first + second == ["top-level", "  - next-level", "    - c", "    - d", "  - next-level", "    - e", "    - f"];
    JoinAppend(first, second, "\n");
    JoinFour("top-level", "  - next-level", "    - c", "    - d", "\n");
    JoinThree("  - next-level", "    - e", "    - f", "\n");
    FirstBlockText();
    SecondBlockText();
  }

  lemma FirstBlockText()
    ensures "top-level" + "\n" + "  - next-level" + "\n" + "    - c" + "\n" + "    - d" + "\n"
      == "top-level\n" + "  - next-level\n    - c\n    - d\n"
  {
  }

  lemma SecondBlockText()
    ensures "  - next-level" + "\n" + "    - e" + "\n" + "    - f" == "  - next-level\n    - e\n    - f"
  {
  }

  /** `cat(messages, spacer = ' ')`: the messages joined by the spacer. */
  function Cat(messages: seq<string>, spacer: string := " "): string
  {
    Join(messages, spacer)
  }

  /** `cat` of nothing is empty, of one message is that message, and each
      further message is appended after a spacer. */
  lemma CatShape(messages: seq<string>, x: string, spacer: string)
    ensures Cat([], spacer) == ""
    ensures Cat([x], spacer) == x
    ensures messages != [] ==> Cat(messages + [x], spacer) == Cat(messages, spacer) + spacer + x
  {
    JoinSnoc(messages, x, spacer);
  }

  /** The length of `cat` is the messages' lengths plus one spacer between
      each two of them. */
  lemma {:induction false} CatLength(messages: seq<string>, spacer: string)
    requires messages != []
    ensures |Cat(messages, spacer)| == TotalLength(messages) + (|messages| - 1) * |spacer|
  {
    if |messages| > 1 {
      CatLength(messages[1..], spacer);
    }
  }

  function TotalLength(parts: seq<string>): nat
  {
    if parts == [] then 0 else |parts[0]| + TotalLength(parts[1..])
  }

  /** The formatter's test: `cat(['a', 'b', 'c']) == 'a b c'`. */
  lemma CatExample()
    ensures Cat(["a", "b", "c"]) == "a b c"
  {
  }
}
