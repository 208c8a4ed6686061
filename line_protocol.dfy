/** The `key=value` line protocol git speaks with the helper: `read` parses
    the request lines into a credential, `write` prints the answer. */
module LineProtocol {
  import opened Credentials

  /** The first position of `ch` in `s`, or -1 (QString::indexOf). */
  function IndexOf(s: string, ch: char): (i: int)
    ensures -1 <= i < |s|
    ensures i >= 0 ==> s[i] == ch && ch !in s[..i]
    ensures i < 0 ==> ch !in s
    decreases |s|
  {
    if s == [] then -1
    else if s[0] == ch then 0
    else
      var j := IndexOf(s[1..], ch);
      assert s == [s[0]] + s[1..];
      if j < 0 then -1 else j + 1
  }

  /** The line assigns field `f`: it starts with the field's name and `=`. */
  predicate Assigns(line: string, f: FieldId) {
    var name := FieldName(f);
    |name| < |line| && line[..|name|] == name && line[|name|] == '='
  }

  /** The value a line assigns: everything after the `=` that ends the name. */
  function AssignedValue(line: string, f: FieldId): string
    requires Assigns(line, f)
  {
    line[|FieldName(f)| + 1..]
  }

  /** The value `read` leaves in field `f` after the lines: that of the last
      line assigning `f`, or empty when no line does. */
  function LastValue(lines: seq<string>, f: FieldId): string
    decreases |lines|
  {
    if lines == [] then []
    else
      var line := lines[|lines| - 1];
      if Assigns(line, f) then AssignedValue(line, f) else LastValue(lines[..|lines| - 1], f)
  }

  /** A field no line assigns stays empty. */
  lemma {:induction false} LastValueUnassigned(lines: seq<string>, f: FieldId)
    requires forall i :: 0 <= i < |lines| ==> !Assigns(lines[i], f)
    ensures LastValue(lines, f) == []
    decreases |lines|
  {
    if lines != [] {
      var init := lines[..|lines| - 1];
      assert forall i :: 0 <= i < |init| ==> init[i] == lines[i];
      LastValueUnassigned(init, f);
    }
  }

  /** The last line assigning a field wins: earlier assignments are overridden. */
  lemma {:induction false} LastValueIsLastAssignment(lines: seq<string>, f: FieldId, i: int)
    requires 0 <= i < |lines| && Assigns(lines[i], f)
    requires forall j :: i < j < |lines| ==> !Assigns(lines[j], f)
    ensures LastValue(lines, f) == AssignedValue(lines[i], f)
    decreases |lines|
  {
    if i < |lines| - 1 {
      var init := lines[..|lines| - 1];
      assert forall j :: 0 <= j < |init| ==> init[j] == lines[j];
      LastValueIsLastAssignment(init, f, i);
    }
  }

  /** The split `read` performs agrees with `Assigns`: the name is the text
      before the first `=`, and it names `f` exactly when the line assigns `f`;
      the value is everything after that `=`, itself free to hold `=`. */
  lemma SplitAtFirstEquals(line: string, f: FieldId)
    ensures Assigns(line, f) <==> (IndexOf(line, '=') >= 0 && line[..IndexOf(line, '=')] == FieldName(f))
    ensures Assigns(line, f) ==> AssignedValue(line, f) == line[IndexOf(line, '=') + 1..]
  {
    var name := FieldName(f);
    var i := IndexOf(line, '=');
    if Assigns(line, f) {
      assert line[..|name|] == name;
      FirstIndexOf(line, '=', |name|);
    }
  }

  /** An occurrence of `ch` with none before it is the one IndexOf finds. */
  lemma {:induction false} FirstIndexOf(s: string, ch: char, k: int)
    requires 0 <= k < |s| && s[k] == ch && ch !in s[..k]
    ensures IndexOf(s, ch) == k
    decreases k
  {
    if k > 0 {
      assert s[0] in s[..k];
      assert s[1..][..k - 1] == s[1..k];
      assert forall x :: x in s[1..k] ==> x in s[..k];
      FirstIndexOf(s[1..], ch, k - 1);
    }
  }

  /** `read`: parses the request lines. A line without `=` is skipped; the
      text before its first `=` is looked up in the field table, an unknown
      name is skipped, and a known one sets that field to the rest of the line. */
  method Read(lines: seq<string>) returns (result: Credential)
    ensures forall f :: result.Field(f) == LastValue(lines, f)
  {
    result := Empty;
    for i := 0 to |lines|
      invariant forall f :: result.Field(f) == LastValue(lines[..i], f)
    {
      var line := lines[i];
      assert lines[..i + 1][..i] == lines[..i];
      var splitPosition := IndexOf(line, '=');
      if splitPosition == -1 {
        forall f ensures !Assigns(line, f) { SplitAtFirstEquals(line, f); }
        continue;
      }
      var fieldName := line[..splitPosition];
      if fieldName !in FieldMapping {
        forall f ensures !Assigns(line, f) { SplitAtFirstEquals(line, f); }
        continue;
      }
      var field := FieldMapping[fieldName];
      FieldMappingInverse(fieldName);
      forall f ensures Assigns(line, f) <==> f == field { SplitAtFirstEquals(line, f); }
      SplitAtFirstEquals(line, field);
      result := result.WithField(field, line[splitPosition + 1..]);
    }
    assert lines[..|lines|] == lines;
  }

  /** `printField`: `name=value` and a newline, or nothing for an empty value. */
  function PrintField(f: FieldId, c: Credential): (out: string)
    ensures out == [] <==> c.Field(f) == []
    ensures c.Field(f) != [] ==> out == FieldName(f) + "=" + c.Field(f) + "\n"
  {
    if c.Field(f) == [] then [] else FieldName(f) + "=" + c.Field(f) + "\n"
  }

  /** A printed field, without its closing newline, is a line that `read`
      takes as assigning that field its value. */
  lemma PrintFieldAssigns(f: FieldId, c: Credential)
    requires c.Field(f) != []
    ensures var out := PrintField(f, c);
      out[|out| - 1] == '\n' && Assigns(out[..|out| - 1], f) && AssignedValue(out[..|out| - 1], f) == c.Field(f)
  {
  }

  /** `write`: the username line, then the password line; protocol and host are
      never printed, and nothing at all is printed for a credential with
      neither username nor password. */
  function Write(c: Credential): (out: string)
    ensures out == [] <==> c.username == [] && c.password == []
  {
    PrintField(Username, c) + PrintField(Password, c)
  }

  /** A line ended by `\r` before its `\n` loses the `\r` when read. */
  function DropCarriageReturn(line: string): string {
    if line != [] && line[|line| - 1] == '\r' then line[..|line| - 1] else line
  }

  /** The lines a text stream yields, as QTextStream::readLineInto does: split
      at each `\n`, which is dropped along with a `\r` just before it; the text
      after the last `\n` is a final line when it is not empty, and loses a
      `\r` that ends the stream. */
  function SplitLines(text: string): seq<string>
    decreases |text|
  {
    var i := IndexOf(text, '\n');
    if i < 0 then (if text == [] then [] else [DropCarriageReturn(text)])
    else [DropCarriageReturn(text[..i])] + SplitLines(text[i + 1..])
  }

  /** A value that survives a round trip through a line. */
  predicate OneLine(value: string) {
    '\n' !in value && (value == [] || value[|value| - 1] != '\r')
  }

  lemma SplitLinesFirst(line: string, rest: string)
    requires OneLine(line)
    ensures SplitLines(line + "\n" + rest) == [line] + SplitLines(rest)
  {
    var text := line + "\n" + rest;
    assert text[|line|] == '\n';
    assert text[..|line|] == line;
    FirstIndexOf(text, '\n', |line|);
    assert text[|line| + 1..] == rest;
  }

  /** The lines `write` prints, without their line ends. */
  function AnswerLines(c: Credential): seq<string> {
    (if c.username == [] then [] else [FieldName(Username) + "=" + c.username])
    + (if c.password == [] then [] else [FieldName(Password) + "=" + c.password])
  }

  lemma SplitWrite(c: Credential)
    requires OneLine(c.username) && OneLine(c.password)
    ensures SplitLines(Write(c)) == AnswerLines(c)
  {
    var userLine := FieldName(Username) + "=" + c.username;
    var passLine := FieldName(Password) + "=" + c.password;
    assert OneLine(userLine) && OneLine(passLine);
    assert Write(c) == (if c.username == [] then [] else userLine + "\n")
                       + (if c.password == [] then [] else passLine + "\n");
    if c.username != [] && c.password != [] {
      assert Write(c) == userLine + "\n" + (passLine + "\n" + []);
      SplitLinesFirst(userLine, passLine + "\n");
      SplitLinesFirst(passLine, []);
    } else if c.username != [] {
      assert Write(c) == userLine + "\n" + [];
      SplitLinesFirst(userLine, []);
    } else if c.password != [] {
      assert Write(c) == passLine + "\n" + [];
      SplitLinesFirst(passLine, []);
    }
  }

  lemma AnswerLinesValues(c: Credential, f: FieldId)
    ensures LastValue(AnswerLines(c), f) == (if f == Username || f == Password then c.Field(f) else [])
  {
    var lines := AnswerLines(c);
    var userLine := FieldName(Username) + "=" + c.username;
    var passLine := FieldName(Password) + "=" + c.password;
    assert userLine[..8] == "username" && userLine[8] == '=';
    assert passLine[..8] == "password" && passLine[8] == '=';
    assert Assigns(userLine, f) <==> f == Username;
    assert Assigns(passLine, f) <==> f == Password;
    assert userLine[9..] == c.username && passLine[9..] == c.password;
    assert [userLine][..0] == [passLine][..0] == lines[..0];
    if c.username != [] && c.password != [] {
      assert lines == [userLine, passLine];
      assert lines[..1] == [userLine];
      assert LastValue(lines, f) == if f == Password then c.password else LastValue([userLine], f);
      assert LastValue([userLine], f) == if f == Username then c.username else LastValue([], f);
    } else if c.username != [] {
      assert lines == [userLine];
    } else if c.password != [] {
      assert lines == [passLine];
    } else {
      assert lines == [];
    }
  }

  /** What `write` prints, read back by `read`, gives back the username and
      password, and leaves protocol and host empty. */
  lemma WriteThenRead(c: Credential)
    requires OneLine(c.username) && OneLine(c.password)
    ensures forall f :: LastValue(SplitLines(Write(c)), f) == (if f == Username || f == Password then c.Field(f) else [])
  {
    SplitWrite(c);
    forall f ensures LastValue(AnswerLines(c), f) == (if f == Username || f == Password then c.Field(f) else []) {
      AnswerLinesValues(c, f);
    }
  }

  /** A value may itself hold `=`: only the first one splits the line. */
  lemma ValueKeepsEquals()
    ensures LastValue(["password=a=b"], Password) == "a=b"
    ensures LastValue(["username=alice", "path=x", "username=bob", "no equals sign"], Username) == "bob"
  {
    assert "password=a=b"[..8] == "password";
    var lines := ["username=alice", "path=x", "username=bob", "no equals sign"];
    assert lines[..3][2][..8] == "username";
  }
}
