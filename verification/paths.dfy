/** Path helpers of the command line tool
    (cmd/tv4p-road-tool/utils.go:85-154): game paths use backslashes, and
    a path given on the command line is trimmed, drive roots are written
    `X:\`, and anything else goes through the platform's path cleaning,
    which is a parameter here. */
module Paths {
  import Text

  /** `strings.ToUpper` on one ASCII character. */
  function UpperChar(c: char): (r: char)
    ensures !('a' <= r <= 'z')
    ensures Text.LowerChar(r) == Text.LowerChar(c)
  {
    if 'a' <= c <= 'z' then (c as int - 32) as char else c
  }

  /** toBackslashes. */
  function ToBackslashes(p: string): (r: string)
    ensures |r| == |p| && '/' !in r
    ensures forall i :: 0 <= i < |p| ==> r[i] == (if p[i] == '/' then '\\' else p[i])
  {
    Text.ReplaceChar(p, '/', '\\')
  }

  /** Converting twice converts nothing more, and two paths convert to
      the same thing exactly when they differ only in which slash they
      use. */
  lemma BackslashesIdempotent(p: string)
    ensures ToBackslashes(ToBackslashes(p)) == ToBackslashes(p)
  {
  }

  predicate SameUpToSlashes(p: string, q: string) {
    |p| == |q| && forall i :: 0 <= i < |p| ==>
      (p[i] == q[i] || (p[i] in "/\\" && q[i] in "/\\"))
  }

  lemma BackslashesIdentify(p: string, q: string)
    ensures ToBackslashes(p) == ToBackslashes(q) <==> SameUpToSlashes(p, q)
  {
    var a, b := ToBackslashes(p), ToBackslashes(q);
    if SameUpToSlashes(p, q) {
      assert forall i :: 0 <= i < |a| ==> a[i] == b[i];
    }
    if a == b {
      forall i | 0 <= i < |p|
        ensures p[i] == q[i] || (p[i] in "/\\" && q[i] in "/\\")
      {
        assert a[i] == b[i];
      }
    }
  }

  predicate IsAsciiLetter(c: char) {
    'A' <= c <= 'Z' || 'a' <= c <= 'z'
  }

  /** The drive root `X:\` for the drive named by `c`. */
  function DriveRoot(c: char): string {
    [UpperChar(c), ':', '\\']
  }

  /** cleanAbs, with `filepath.Clean` as the parameter `clean`. A blank
      path stays empty; `X:` with a letter X and `X:\` or `X:/` with any
      first character become the drive root; anything else is cleaned. */
  function CleanAbs(p: string, clean: string -> string): (r: string)
    ensures Text.IsBlank(p) ==> r == ""
    ensures var t := Text.TrimSpace(p);
      |t| == 2 && t[1] == ':' && IsAsciiLetter(t[0]) ==> r == DriveRoot(t[0])
    ensures var t := Text.TrimSpace(p);
      |t| == 3 && t[1] == ':' && t[2] in "\\/" ==> r == DriveRoot(t[0])
  {
    var t := Text.TrimSpace(p);
    if t == "" then ""
    else if |t| == 2 && t[1] == ':' && IsAsciiLetter(t[0]) then DriveRoot(t[0])
    else if |t| == 3 && t[1] == ':' && (t[2] == '\\' || t[2] == '/') then DriveRoot(t[0])
    else clean(t)
  }

  /** Only the trimmed path matters. */
  lemma CleanAbsTrims(p: string, clean: string -> string)
    ensures CleanAbs(p, clean) == CleanAbs(Text.TrimSpace(p), clean)
  {
    Text.TrimSpaceIdempotent(p);
  }

  /** A string with no white space at either end trims to itself. */
  lemma TrimmedAlready(s: string)
    requires |s| > 0 && !Text.IsSpace(s[0]) && !Text.IsSpace(s[|s| - 1])
    ensures Text.TrimSpace(s) == s
  {
    assert Text.TrimLeftSpace(s) == s;
  }

  /** A drive root is its own clean form: cleaning it again gives the
      same drive root, whatever `clean` does. */
  lemma DriveRootStable(c: char, clean: string -> string)
    requires !Text.IsSpace(c)
    ensures CleanAbs(DriveRoot(c), clean) == DriveRoot(c)
  {
    TrimmedAlready(DriveRoot(c));
  }

  /** So cleaning is idempotent on everything that names a drive root. */
  lemma CleanAbsDriveIdempotent(p: string, clean: string -> string)
    requires var t := Text.TrimSpace(p);
      (|t| == 2 && t[1] == ':' && IsAsciiLetter(t[0])) || (|t| == 3 && t[1] == ':' && t[2] in "\\/")
    ensures CleanAbs(CleanAbs(p, clean), clean) == CleanAbs(p, clean)
  {
    var t := Text.TrimSpace(p);
    var l := Text.TrimLeftSpace(p);
    assert t[0] == l[0];
    DriveRootStable(t[0], clean);
  }

  /** Drive letters are case-insensitive: `c:` and `C:\` name the same
      root. */
  lemma DriveRootIgnoresCase(c: char, clean: string -> string)
    requires 'a' <= c <= 'z'
    ensures CleanAbs([c, ':'], clean) == CleanAbs([UpperChar(c), ':', '\\'], clean)
  {
    TrimmedAlready([c, ':']);
    DriveRootStable(c, clean);
  }

  /** The three-character form does not check for a letter: `1:/` is a
      drive root too, while `1:` goes to the path cleaner. */
  lemma DriveRootWithoutLetter(c: char, clean: string -> string)
    requires !IsAsciiLetter(c) && !Text.IsSpace(c)
    ensures CleanAbs([c, ':', '/'], clean) == DriveRoot(c)
    ensures CleanAbs([c, ':'], clean) == clean([c, ':'])
  {
    TrimmedAlready([c, ':', '/']);
    TrimmedAlready([c, ':']);
  }
}
