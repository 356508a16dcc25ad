/** File paths as the editor sees them, and the ".txt" rule that Save As applies
    to the name the user typed in the save dialog. */
module Files {

  datatype Option<+T> = None | Some(value: T)

  /** A file: the directory part of its absolute path and its name, the last
      path component (what `File.getName()` returns). */
  datatype FilePath = FilePath(dir: string, name: string)

  const TxtExtension: string := ".txt"

  /** ASCII lower-casing of one character. */
  function LowerChar(c: char): (d: char)
    ensures 'A' <= c <= 'Z' ==> d as int == c as int + 32
    ensures !('A' <= c <= 'Z') ==> d == c
    ensures !('A' <= d <= 'Z')
  {
    if 'A' <= c <= 'Z' then (c as int + 32) as char else c
  }

  /** ASCII lower-casing of a whole string. */
  function Lower(s: string): (t: string)
    ensures |t| == |s|
    ensures forall i :: 0 <= i < |s| ==> t[i] == LowerChar(s[i])
  {
    seq(|s|, i requires 0 <= i < |s| => LowerChar(s[i]))
  }

  /** `String.equalsIgnoreCase`, for characters whose case is ASCII: same
      length, and each pair of characters equal or equal after case folding. */
  function EqualsIgnoreCase(a: string, b: string): (eq: bool)
    ensures eq <==> Lower(a) == Lower(b)
  {
    |a| == |b| && forall i :: 0 <= i < |a| ==> a[i] == b[i] || LowerChar(a[i]) == LowerChar(b[i])
  }

  /** Reference definition: the name ends in ".txt" in any mix of cases. */
  ghost predicate EndsWithTxt(name: string) {
    |name| >= |TxtExtension| && Lower(name)[|name| - |TxtExtension|..] == TxtExtension
  }

  /** `String.length()`: the number of UTF-16 code units, where a character
      beyond the Basic Multilingual Plane takes two (a surrogate pair). */
  function Utf16Length(s: string): (n: nat)
    ensures |s| <= n <= 2 * |s|
  {
    if s == [] then 0
    else (if s[0] as int > 0xFFFF then 2 else 1) + Utf16Length(s[1..])
  }

  /** The check `!fileName.substring(fileName.length() - 4).equalsIgnoreCase(".txt")`
      without its negation: `None` when `substring` throws because the name is
      shorter than four UTF-16 code units, otherwise whether the last four code
      units are ".txt" ignoring case. Four code units that hold part of a
      surrogate pair never equal ".txt", so they are compared as the last four
      characters, which then include a character beyond the Basic Multilingual
      Plane and cannot equal ".txt" either. */
  function TxtCheck(name: string): (r: Option<bool>)
    ensures r.None? <==> Utf16Length(name) < 4
    ensures r == Some(true) <==> EndsWithTxt(name)
  {
    if Utf16Length(name) < 4 then None
    else if |name| < 4 then Some(false)
    else
      assert Lower(name[|name| - 4..]) == Lower(name)[|name| - 4..];
      Some(EqualsIgnoreCase(name[|name| - 4..], TxtExtension))
  }

  /** `new File(selectedFile.getAbsoluteFile() + ".txt")`: the same directory,
      the name with ".txt" appended. */
  function AppendTxt(f: FilePath): (g: FilePath)
    ensures g.dir == f.dir && |g.name| == |f.name| + 4 && g.name[..|f.name|] == f.name
    ensures g.name[|f.name|..] == TxtExtension
    ensures EndsWithTxt(g.name)
  {
    AppendedEndsWithTxt(f.name);
    FilePath(f.dir, f.name + TxtExtension)
  }

  /** The file Save As writes for the file chosen in the dialog: `None` when
      the extension check throws (a name shorter than four UTF-16 code units),
      the chosen file itself when its name already
      ends in ".txt" ignoring case, and otherwise the chosen file with ".txt"
      appended. */
  function SaveTarget(f: FilePath): (r: Option<FilePath>)
    ensures r.None? <==> Utf16Length(f.name) < 4
    ensures r == Some(f) <==> EndsWithTxt(f.name)
    ensures r.Some? && r.value != f ==> r.value == FilePath(f.dir, f.name + TxtExtension)
    ensures r.Some? ==> EndsWithTxt(r.value.name)
  {
    match TxtCheck(f.name)
    case None => None
    case Some(hasTxt) =>
      if hasTxt then Some(f)
      else Some(AppendTxt(f))
  }

  /** Appending ".txt" always yields a name the check accepts. */
  lemma AppendedEndsWithTxt(name: string)
    ensures EndsWithTxt(name + TxtExtension)
  {
  }

  /** Saving under the file that Save As chose again keeps it: the ".txt"
      rule is idempotent. */
  lemma SaveTargetIdempotent(f: FilePath, g: FilePath)
    requires SaveTarget(f) == Some(g)
    ensures SaveTarget(g) == Some(g)
  {
  }

  /** "report" gains the extension; a name shorter than four characters
      makes the check throw. */
  lemma SaveTargetAppends(dir: string)
    ensures SaveTarget(FilePath(dir, "report")) == Some(FilePath(dir, "report.txt"))
    ensures SaveTarget(FilePath(dir, "abc")) == None
  {
    assert "report"[2..] == "port";
    assert !EqualsIgnoreCase("port", TxtExtension) by {
      assert "port"[0] == 'p' && LowerChar('p') != '.';
    }
    assert TxtCheck("report") == Some(false);
    assert "report" + TxtExtension == "report.txt";
  }

  /** "ab" followed by an emoji is three characters but four UTF-16 code
      units: `substring` does not throw, and the name gains ".txt". */
  lemma SaveTargetSupplementary(dir: string)
    ensures Utf16Length("ab\U{1F600}") == 4
    ensures SaveTarget(FilePath(dir, "ab\U{1F600}")) == Some(FilePath(dir, "ab\U{1F600}.txt"))
  {
    assert "ab\U{1F600}"[1..] == "b\U{1F600}";
    assert "ab\U{1F600}"[2..] == "\U{1F600}";
    assert TxtCheck("ab\U{1F600}") == Some(false);
    assert "ab\U{1F600}" + TxtExtension == "ab\U{1F600}.txt";
  }

  /** "report.txt" and "REPORT.TXT" keep their names. */
  lemma SaveTargetKeeps(dir: string)
    ensures SaveTarget(FilePath(dir, "report.txt")) == Some(FilePath(dir, "report.txt"))
    ensures SaveTarget(FilePath(dir, "REPORT.TXT")) == Some(FilePath(dir, "REPORT.TXT"))
  {
    assert "report.txt"[6..] == ".txt";
    assert "REPORT.TXT"[6..] == ".TXT";
    assert EqualsIgnoreCase(".TXT", TxtExtension) by {
      assert LowerChar('T') == 't' && LowerChar('X') == 'x';
    }
  }
}
