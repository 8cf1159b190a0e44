/** The credential file of credentials.py: a two-line text file holding the
    SSH username and password, a template written when it is missing, and
    the loader's validation. The file system is an input: the file's state
    and whether a write succeeds. */
module Credentials {
  import opened Common
  import opened Text

  /** The credentials file as the loader finds it. */
  datatype CredFile = Missing | Unreadable | Present(content: string)

  /** What `create_credentials_template` writes: placeholder username and password. */
  const Template: string := "username" + "\n" + "password"

  datatype CredError =
    | NotFound(templateCreated: bool)  // FileNotFoundError
    | TooFewLines                      // ValueError: fewer than two lines
    | EmptyField                       // ValueError: blank username or password
    | ReadFailed                       // ValueError wrapping any other read failure

  /** `create_credentials_template`: whether it created the file, and the
      file afterwards. An existing file is never touched. */
  function CreateTemplate(file: CredFile, writeOk: bool): (r: (bool, CredFile))
    ensures !file.Missing? ==> r == (false, file)
    ensures r.0 <==> file.Missing? && writeOk
    ensures r.0 ==> r.1 == Present(Template)
    ensures !r.0 ==> r.1 == file
  {
    if !file.Missing? then (false, file)
    else if writeOk then (true, Present(Template))
    else (false, file)
  }

  /** The parsing half of `load_credentials`: strip the whole text, split it
      into lines, take the first two lines stripped, and reject a blank one. */
  function ParseCredentials(content: string): (r: Result<(string, string), CredError>)
    ensures r.Ok? ==> r.value.0 != "" && r.value.1 != ""
    ensures r.Ok? ==> IsTrimmed(r.value.0) && IsTrimmed(r.value.1)
    ensures r.Ok? ==> '\n' !in r.value.0 && '\n' !in r.value.1
    ensures r.Err? ==> r.error == TooFewLines || r.error == EmptyField
  {
    var lines := Lines(Trim(content));
    if |lines| < 2 then Err(TooFewLines)
    else
      var user := Trim(lines[0]);
      var password := Trim(lines[1]);
      assert forall c :: c in user ==> c in lines[0] by {
        assert user == TrimRight(TrimLeft(lines[0]));
      }
      assert forall c :: c in password ==> c in lines[1] by {
        assert password == TrimRight(TrimLeft(lines[1]));
      }
      if user == "" || password == "" then Err(EmptyField) else Ok((user, password))
  }

  /** `load_credentials(create_if_missing)`: the outcome and the file
      afterwards. A missing file is always a FileNotFoundError; the template
      is written only when allowed and only for a missing file. */
  function LoadCredentials(file: CredFile, createIfMissing: bool, writeOk: bool): (r: (Result<(string, string), CredError>, CredFile))
    ensures file.Missing? ==> r.0.Err? && r.0.error.NotFound?
    ensures file.Missing? ==> (r.1 == Present(Template) <==> createIfMissing && writeOk)
    ensures !file.Missing? ==> r.1 == file
    ensures file.Unreadable? ==> r.0 == Err(ReadFailed)
    ensures file.Present? ==> r.0 == ParseCredentials(file.content)
  {
    match file
    case Missing =>
      if createIfMissing then
        var (created, after) := CreateTemplate(file, writeOk);
        (Err(NotFound(created)), after)
      else (Err(NotFound(false)), file)
    case Unreadable => (Err(ReadFailed), file)
    case Present(content) => (ParseCredentials(content), file)
  }

  /** `validate_credentials` on two strings: both must be non-empty. */
  function ValidateCredentials(username: string, password: string): (r: bool)
    ensures r <==> |username| > 0 && |password| > 0
  {
    username != "" && password != ""
  }

  /** Whatever `load_credentials` returns passes `validate_credentials`. */
  lemma LoadedCredentialsValid(file: CredFile, createIfMissing: bool, writeOk: bool)
    ensures var r := LoadCredentials(file, createIfMissing, writeOk).0;
      r.Ok? ==> ValidateCredentials(r.value.0, r.value.1)
  {
  }

  /** On stripped text, the outcome depends only on the first two lines. */
  lemma ParseFirstTwoLines(content: string, first: string, second: string, more: seq<string>)
    requires IsTrimmed(content)
    requires Lines(content) == [first, second] + more
    ensures ParseCredentials(content) ==
      if Trim(first) == "" || Trim(second) == "" then Err(EmptyField) else Ok((Trim(first), Trim(second)))
  {
    assert Trim(content) == content;
  }

  /** A file holding exactly a username line and a password line reads back
      as that username and password. */
  lemma CredentialsRoundTrip(user: string, password: string)
    requires user != "" && password != "" && IsTrimmed(user) && IsTrimmed(password)
    requires '\n' !in user && '\n' !in password
    ensures ParseCredentials(user + "\n" + password) == Ok((user, password))
  {
    var content := user + "\n" + password;
    assert content[0] == user[0];
    assert content[|content| - 1] == password[|password| - 1];
    TwoLines(user, password);
    ParseFirstTwoLines(content, user, password, []);
  }

  /** Lines after the password line are ignored. */
  lemma ExtraLinesIgnored(user: string, password: string, rest: string)
    requires user != "" && password != "" && IsTrimmed(user) && IsTrimmed(password)
    requires '\n' !in user && '\n' !in password
    requires rest != "" && IsTrimmed(rest)
    ensures ParseCredentials(user + "\n" + password + "\n" + rest) == Ok((user, password))
  {
    var tail := password + "\n" + rest;
    var content := user + "\n" + tail;
    assert user + "\n" + password + "\n" + rest == content;
    assert IsTrimmed(content) by {
      TrimmedAround(password, "\n", rest);
      TrimmedAround(user, "\n", tail);
    }
    assert Lines(content) == [user, password] + Lines(rest) by {
      LinesAfterPiece(password, rest);
      LinesAfterPiece(user, tail);
    }
    ParseFirstTwoLines(content, user, password, Lines(rest));
  }

  /** The template the tool writes parses as the placeholder credentials. */
  lemma TemplateParses()
    ensures ParseCredentials(Template) == Ok(("username", "password"))
  {
    assert IsTrimmed("username");
    assert IsTrimmed("password");
    assert '\n' !in "username";
    assert '\n' !in "password";
    CredentialsRoundTrip("username", "password");
  }

  /** A blank second line is rejected even when further lines follow. */
  lemma BlankSecondLineRejected(user: string, rest: string)
    requires user != "" && IsTrimmed(user) && '\n' !in user
    requires rest != "" && IsTrimmed(rest)
    ensures ParseCredentials(user + "\n\n" + rest) == Err(EmptyField)
  {
    var tail := "" + "\n" + rest;
    var content := user + "\n" + tail;
    assert user + "\n\n" + rest == content;
    assert IsTrimmed(content) by {
      TrimmedAround(user, "\n\n", rest);
    }
    assert Lines(content) == [user, ""] + Lines(rest) by {
      LinesAfterPiece("", rest);
      LinesAfterPiece(user, tail);
    }
    assert Trim("") == "";
    ParseFirstTwoLines(content, user, "", Lines(rest));
  }

  /** Text between two non-blank stripped ends is itself stripped. */
  lemma TrimmedAround(a: string, mid: string, b: string)
    requires a != "" && b != "" && IsTrimmed(a) && IsTrimmed(b)
    ensures IsTrimmed(a + mid + b)
  {
    var s := a + mid + b;
    assert s[0] == a[0];
    assert s[|s| - 1] == b[|b| - 1];
  }

  /** Text without a line break after stripping is one line at most, so it fails. */
  lemma SingleLineRejected(content: string)
    requires '\n' !in Trim(content)
    ensures ParseCredentials(content) == Err(TooFewLines)
  {
  }
}
