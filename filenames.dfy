/** The upload file-name validator: the pattern `^[a-z0-9_.!+-]+$`, compiled
    with re.IGNORECASE and applied with `re.match`. */
module Filenames {

  /** The ASCII characters of the class: letters of either case, digits and
      the five marks `_ . ! + -`. */
  predicate IsAsciiNameChar(c: char)
  {
    ('a' <= c <= 'z') || ('A' <= c <= 'Z') || ('0' <= c <= '9')
    || c == '_' || c == '.' || c == '!' || c == '+' || c == '-'
  }

  /** Python's case-insensitive matching of a str pattern lets the range a-z
      also match the four non-ASCII letters whose case folding lands in it:
      U+0130, U+0131, U+017F and the Kelvin sign U+212A. */
  predicate IsFoldedLetter(c: char)
  {
    c == '\U{130}' || c == '\U{131}' || c == '\U{17F}' || c == '\U{212A}'
  }

  /** A character the class `[a-z0-9_.!+-]` matches under re.IGNORECASE. */
  predicate IsNameChar(c: char)
  {
    IsAsciiNameChar(c) || IsFoldedLetter(c)
  }

  predicate AllNameChars(s: string)
  {
    forall i :: 0 <= i < |s| ==> IsNameChar(s[i])
  }

  /** `is_valid_pkg_filename`: one or more class characters from the start;
      `$` matches at the end or just before a newline that ends the string. */
  predicate IsValidPkgFilename(fname: string)
  {
    var body := if |fname| > 0 && fname[|fname| - 1] == '\n' then fname[..|fname| - 1] else fname;
    |body| > 0 && AllNameChars(body)
  }

  /** The pattern's language, both directions: a name that does not end in a
      newline is accepted iff it is a non-empty run of class characters, and
      such a run followed by one newline is accepted too. */
  lemma ValidIffPatternLanguage(t: string)
    ensures (|t| == 0 || t[|t| - 1] != '\n') ==> (IsValidPkgFilename(t) <==> |t| > 0 && AllNameChars(t))
    ensures IsValidPkgFilename(t + "\n") <==> |t| > 0 && AllNameChars(t)
  {
    assert (t + "\n")[..|t|] == t;
  }

  /** Every name ends with a newline or not, so the previous lemma covers
      every input: a newline anywhere but at the end is rejected. */
  lemma {:induction false} ValidNamesHaveNoInnerNewline(fname: string)
    requires IsValidPkgFilename(fname)
    ensures forall i :: 0 <= i < |fname| - 1 ==> fname[i] != '\n'
    ensures |fname| > 0 && fname[0] != '\n'
  {
    if fname[|fname| - 1] == '\n' {
      var body := fname[..|fname| - 1];
      assert forall i :: 0 <= i < |fname| - 1 ==> fname[i] == body[i];
      assert IsNameChar(body[0]);
    } else {
      assert IsNameChar(fname[0]);
    }
  }

  /** Over plain ASCII names without a newline the validator is exactly the
      advertised class: letters of either case, digits and `_ . ! + -`. */
  lemma AsciiValidIff(fname: string)
    requires forall i :: 0 <= i < |fname| ==> fname[i] as int < 128 && fname[i] != '\n'
    ensures IsValidPkgFilename(fname)
        <==> |fname| > 0 && forall i :: 0 <= i < |fname| ==> IsAsciiNameChar(fname[i])
  {
  }

  /** An accepted name cannot leave the package directory: it holds no path
      separator, no space and no control character other than a final newline. */
  lemma ValidNamesAreSafe(fname: string)
    requires IsValidPkgFilename(fname)
    ensures forall i :: 0 <= i < |fname| ==> fname[i] != '/' && fname[i] != '\\' && fname[i] != ' '
    ensures forall i :: 0 <= i < |fname| - 1 ==> fname[i] as int >= 32
  {
    var body := if fname[|fname| - 1] == '\n' then fname[..|fname| - 1] else fname;
    assert forall i :: 0 <= i < |body| ==> fname[i] == body[i];
  }

  /** Names the validator refuses: one with a space, one with a path
      separator, the empty name and a lone newline. */
  lemma ValidatorRejects()
    ensures !IsValidPkgFilename("a b-1.0.zip")
    ensures !IsValidPkgFilename("../a-1.0.zip")
    ensures !IsValidPkgFilename("") && !IsValidPkgFilename("\n")
  {
    assert !IsNameChar("a b-1.0.zip"[1]);
    assert !IsNameChar("../a-1.0.zip"[2]);
  }

  /** Names the validator lets through: a plain one, the same with a
      trailing newline, and one that starts with the long s (U+017F). */
  lemma ValidatorAccepts()
    ensures IsValidPkgFilename("a-1.0.zip")
    ensures IsValidPkgFilename("a-1.0.zip\n")
    ensures IsValidPkgFilename("\U{17F}-1.0.zip")
  {
    assert "a-1.0.zip\n"[..9] == "a-1.0.zip";
  }
}
