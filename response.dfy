/**
 * `Response<T>`: the envelope application services return. `Success` carries data; `Fail` carries
 * the validation failures as one text, each failure's message followed by a line terminator;
 * `SetUsername` stamps the caller's name on the envelope itself and returns it.
 */
module Models {
  import opened Common

  /** A FluentValidation failure; only its message is read here. */
  datatype ValidationFailure = ValidationFailure(errorMessage: string)

  /** `Environment.NewLine`, which `StringBuilder.AppendLine` appends (taken as the Unix value). */
  const NewLine := "\n"

  /** What `Fail` puts in `Errors`: every message, in list order, each followed by `NewLine`. */
  function ErrorText(failures: seq<ValidationFailure>): (r: string)
    ensures failures == [] ==> r == ""
  {
    if failures == [] then ""
    else ErrorText(failures[..|failures| - 1]) + failures[|failures| - 1].errorMessage + NewLine
  }

  /** The text of a list of failures is the text of its first part followed by that of the rest. */
  lemma {:induction false} ErrorTextAppend(a: seq<ValidationFailure>, b: seq<ValidationFailure>)
    ensures ErrorText(a + b) == ErrorText(a) + ErrorText(b)
  {
    if b == [] {
      assert a + b == a;
    } else {
      var b' := b[..|b| - 1];
      assert (a + b)[..|a + b| - 1] == a + b';
      ErrorTextAppend(a, b');
    }
  }

  /** The lines of a text: each line is cut at a `'\n'`, which is dropped; a trailing piece without one is the last line. */
  function Lines(s: string): seq<string>
  {
    if s == "" then []
    else if s[0] == '\n' then [""] + Lines(s[1..])
    else
      var rest := Lines(s[1..]);
      if rest == [] then [[s[0]]] else [[s[0]] + rest[0]] + rest[1..]
  }

  lemma {:induction false} LinesOfTerminatedLine(line: string, rest: string)
    requires '\n' !in line
    ensures Lines(line + NewLine + rest) == [line] + Lines(rest)
  {
    if line == "" {
      assert line + NewLine + rest == ['\n'] + rest;
    } else {
      var s := line + NewLine + rest;
      assert s[0] == line[0] && s[0] != '\n';
      assert s[1..] == line[1..] + NewLine + rest;
      LinesOfTerminatedLine(line[1..], rest);
      var tail := [line[1..]] + Lines(rest);
      assert tail[0] == line[1..] && tail[1..] == Lines(rest);
      assert [s[0]] + line[1..] == line;
    }
  }

  function Messages(failures: seq<ValidationFailure>): seq<string>
  {
    seq(|failures|, i requires 0 <= i < |failures| => failures[i].errorMessage)
  }

  /**
   * The error text can be read back: when no message contains a line break, splitting the text
   * into lines gives the messages again, in order (so `Fail([])` gives the empty text, not `null`).
   */
  lemma {:induction false} ErrorTextLines(failures: seq<ValidationFailure>)
    requires forall i :: 0 <= i < |failures| ==> '\n' !in failures[i].errorMessage
    ensures Lines(ErrorText(failures)) == Messages(failures)
  {
    if failures != [] {
      var rest := failures[1..];
      assert failures == [failures[0]] + rest;
      ErrorTextAppend([failures[0]], rest);
      assert ErrorText([failures[0]]) == failures[0].errorMessage + NewLine by {
        assert [failures[0]][..0] == [];
      }
      LinesOfTerminatedLine(failures[0].errorMessage, ErrorText(rest));
      ErrorTextLines(rest);
    }
  }

  class Response<T> {
    const isSuccess: bool
    /** `Data`; `None` is `default(T)`, which `Fail` leaves in place. */
    const data: Option<T>
    const errors: Option<string>
    var username: Option<string>

    constructor Success(data: T)
      ensures isSuccess && this.data == Some(data) && errors == None && username == None
    {
      isSuccess := true;
      this.data := Some(data);
      errors := None;
      username := None;
    }

    /** Collects the messages as `failures.ForEach(f => errors.AppendLine(f.ErrorMessage))` does. */
    constructor Fail(failures: seq<ValidationFailure>)
      ensures !isSuccess && data == None && errors == Some(ErrorText(failures)) && username == None
    {
      var text := "";
      var i := 0;
      while i < |failures|
        invariant 0 <= i <= |failures|
        invariant text == ErrorText(failures[..i])
      {
        assert failures[..i + 1][..i] == failures[..i];
        text := text + failures[i].errorMessage + NewLine;
        i := i + 1;
      }
      assert failures[..i] == failures;
      errors := Some(text);
      isSuccess := false;
      data := None;
      username := None;
    }

    method SetUsername(username: string) returns (self: Response<T>)
      modifies this
      ensures self == this
      ensures this.username == Some(username)
    {
      this.username := Some(username);
      self := this;
    }
  }
}
