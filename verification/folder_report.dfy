/** The file-name logic of prog3/prog3.cpp: which directory entries are
    descended into, which files are listed, and how a listed name is
    escaped into an XML line of the git or the non-git report. */
module FolderReport {

  // -------------------------------------------------------------- folders

  /** Directories the report never descends into. */
  const SkippedFolders: set<string> := {".git", ".vs", "x64", "Debug", ".", ".."}

  /** `isValidFolder`: a directory entry is processed when it is a
      directory and not one of the skipped names. */
  function IsValidFolder(name: string, isDirectory: bool): (ok: bool)
    ensures ok <==> isDirectory && name !in SkippedFolders
  {
    if isDirectory then
      name != ".git" && name != ".vs" && name != "x64" &&
      name != "Debug" && name != "." && name != ".."
    else false
  }

  // ---------------------------------------------------------------- files

  /** Extensions of the files the report lists. */
  const ListedExtensions: set<string> := {".sln", ".cpp", ".vcxproj", ".h"}

  /** Files listed whatever their extension. */
  const ListedNames: set<string> := {".gitignore", ".gitattributes"}

  predicate EndsWith(s: string, suffix: string) {
    |suffix| <= |s| && s[|s| - |suffix|..] == suffix
  }

  /** The whitelist of `outputFiles`: a name longer than one of the listed
      extensions that ends in it, or one of the listed names. */
  function IsListedFile(name: string): (ok: bool)
    ensures ok <==> (name in ListedNames ||
      exists stem, ext :: ext in ListedExtensions && |stem| > 0 && name == stem + ext)
  {
    var n := |name|;
    var listed :=
      (n > 4 && (name[n - 4..] == ".sln" || name[n - 4..] == ".cpp"))
      || (n > 8 && name[n - 8..] == ".vcxproj")
      || (n > 2 && name[n - 2..] == ".h")
      || name == ".gitignore" || name == ".gitattributes";
    ListedSplit(name);
    listed
  }

  /** A name is a non-empty stem followed by a listed extension exactly
      when it is longer than that extension and ends in it. */
  lemma ListedSplit(name: string)
    ensures (exists stem, ext :: ext in ListedExtensions && |stem| > 0 && name == stem + ext) <==>
      exists ext :: ext in ListedExtensions && |name| > |ext| && EndsWith(name, ext)
  {
    forall stem, ext | ext in ListedExtensions && |stem| > 0 && name == stem + ext
      ensures |name| > |ext| && EndsWith(name, ext)
    {
      assert name[|name| - |ext|..] == ext;
    }
    forall ext | ext in ListedExtensions && |name| > |ext| && EndsWith(name, ext)
      ensures exists stem :: |stem| > 0 && name == stem + ext
    {
      var stem := name[..|name| - |ext|];
      assert name == stem + ext;
    }
  }

  /** A bare extension is not a listed file. */
  lemma BareExtensionsRejected()
    ensures !IsListedFile(".cpp") && !IsListedFile(".h") && !IsListedFile(".sln") && !IsListedFile(".vcxproj")
  {
    assert ".cpp"[1..] == "cpp";
  }

  // ------------------------------------------------------------- escaping

  /** Number of occurrences of c in s. */
  function Count(s: string, c: char): (n: nat)
    ensures n <= |s|
    ensures n == 0 <==> c !in s
  {
    if |s| == 0 then 0 else (if s[0] == c then 1 else 0) + Count(s[1..], c)
  }

  /** Reference meaning of a replacement loop: every c in s becomes repl,
      every other character stays. */
  function Replaced(s: string, c: char, repl: string): string {
    if |s| == 0 then [] else (if s[0] == c then repl else [s[0]]) + Replaced(s[1..], c, repl)
  }

  lemma {:induction false} ReplacedAppend(a: string, b: string, c: char, repl: string)
    ensures Replaced(a + b, c, repl) == Replaced(a, c, repl) + Replaced(b, c, repl)
  {
    if |a| > 0 {
      assert (a + b)[1..] == a[1..] + b;
      ReplacedAppend(a[1..], b, c, repl);
    } else {
      assert a + b == b;
    }
  }

  /** Text without c is left as it is. */
  lemma {:induction false} ReplacedWithout(s: string, c: char, repl: string)
    requires c !in s
    ensures Replaced(s, c, repl) == s
  {
    if |s| > 0 {
      ReplacedWithout(s[1..], c, repl);
      assert [s[0]] + s[1..] == s;
    }
  }

  /** Each occurrence of c grows the text by |repl| - 1. */
  lemma {:induction false} ReplacedLength(s: string, c: char, repl: string)
    ensures |Replaced(s, c, repl)| == |s| + (|repl| - 1) * Count(s, c)
  {
    if |s| > 0 {
      ReplacedLength(s[1..], c, repl);
      var hit := if s[0] == c then 1 else 0;
      assert Count(s, c) == Count(s[1..], c) + hit;
      LengthStep(|Replaced(s, c, repl)|, |Replaced(s[1..], c, repl)|, |s|, |repl| - 1,
        Count(s, c), Count(s[1..], c), hit);
    }
  }

  /** The arithmetic of one more character, hit being 1 for an occurrence. */
  lemma LengthStep(len: int, len1: int, n: int, g: int, k: int, k1: int, hit: int)
    requires hit == 0 || hit == 1
    requires len1 == (n - 1) + g * k1 && k == k1 + hit
    requires len == len1 + (if hit == 1 then g + 1 else 1)
    ensures len == n + g * k
  {
  }

  /** No c survives when repl has none. */
  lemma {:induction false} ReplacedRemoves(s: string, c: char, repl: string)
    requires c !in repl
    ensures c !in Replaced(s, c, repl)
  {
    if |s| > 0 {
      ReplacedRemoves(s[1..], c, repl);
      var head := if s[0] == c then repl else [s[0]];
      assert Replaced(s, c, repl) == head + Replaced(s[1..], c, repl);
      assert c !in head;
    }
  }

  /** First position at or after `from` holding c, or -1 for `npos`. */
  function Find(s: string, c: char, from: nat): (k: int)
    requires from <= |s|
    ensures k == -1 ==> c !in s[from..]
    ensures k != -1 ==> from <= k < |s| && s[k] == c && c !in s[from..k]
    decreases |s| - from
  {
    if from == |s| then -1
    else if s[from] == c then from
    else
      var k := Find(s, c, from + 1);
      assert s[from..] == [s[from]] + s[from + 1..];
      assert k != -1 ==> s[from..k] == [s[from]] + s[from + 1..k];
      k
  }

  /** The replacement loops of `outputFiles`: find the next c at or after
      pos, splice repl in its place and resume the search after repl. */
  method ReplaceAll(s: string, c: char, repl: string) returns (r: string)
    ensures r == Replaced(s, c, repl)
  {
    r := s;
    var pos := 0;
    assert r[pos..] == s;
    while true
      invariant 0 <= pos <= |r|
      invariant Replaced(s, c, repl) == r[..pos] + Replaced(r[pos..], c, repl)
      decreases |r| - pos
    {
      var k := Find(r, c, pos);
      if k == -1 {
        break;
      }
      var next := r[..k] + repl + r[k + 1..];
      ReplaceStep(r, pos, k, c, repl, next);
      r, pos := next, k + |repl|;
    }
    ReplacedWithout(r[pos..], c, repl);
    assert r[..pos] + r[pos..] == r;
  }

  /** One round of the loop: the text before the next c is final, the c
      becomes repl, and the search resumes right after repl. */
  lemma ReplaceStep(r: string, pos: int, k: int, c: char, repl: string, next: string)
    requires 0 <= pos <= k < |r| && r[k] == c && c !in r[pos..k]
    requires next == r[..k] + repl + r[k + 1..]
    ensures k + |repl| <= |next| && |next| - (k + |repl|) < |r| - pos
    ensures next[..k + |repl|] + Replaced(next[k + |repl|..], c, repl)
      == r[..pos] + Replaced(r[pos..], c, repl)
  {
    SpliceSlices(r, pos, k, repl, next);
    StepParts(next[..k + |repl|], next[k + |repl|..], r[..pos], r[pos..], r[pos..k], c, r[k + 1..], repl);
  }

  /** The loop invariant carried across one splice, over named parts. */
  lemma StepParts(head: string, tail: string, p: string, rest: string, b: string, c: char, t: string, repl: string)
    requires c !in b
    requires head == p + b + repl && tail == t && rest == b + [c] + t
    ensures head + Replaced(tail, c, repl) == p + Replaced(rest, c, repl)
  {
    ReplacedPiece(b, c, t, repl);
    var rt := Replaced(t, c, repl);
    assert p + b + repl + rt == p + (b + repl + rt);
  }

  /** How the spliced text divides up around the splice. */
  lemma SpliceSlices(r: string, pos: int, k: int, repl: string, next: string)
    requires 0 <= pos <= k < |r|
    requires next == r[..k] + repl + r[k + 1..]
    ensures |next| == |r| - 1 + |repl|
    ensures r[pos..] == r[pos..k] + [r[k]] + r[k + 1..]
    ensures next[..k + |repl|] == r[..pos] + r[pos..k] + repl
    ensures next[k + |repl|..] == r[k + 1..]
  {
    assert r[..k] == r[..pos] + r[pos..k];
  }

  /** Replacing in a run without c, one c and a tail. */
  lemma ReplacedPiece(b: string, c: char, t: string, repl: string)
    requires c !in b
    ensures Replaced(b + [c] + t, c, repl) == b + repl + Replaced(t, c, repl)
  {
    ReplacedAppend(b + [c], t, c, repl);
    ReplacedAppend(b, [c], c, repl);
    ReplacedWithout(b, c, repl);
    assert Replaced([c], c, repl) == repl + Replaced([], c, repl);
  }

  // ------------------------------------------------------ XML file names

  /** What one character of a name becomes in the report. */
  function EscapeChar(ch: char): string {
    if ch == '&' then "&amp;" else if ch == '\'' then "&apos;" else [ch]
  }

  /** A name with `&` and `'` written as XML entities, character by
      character. */
  function Escaped(s: string): string {
    if |s| == 0 then [] else EscapeChar(s[0]) + Escaped(s[1..])
  }

  /** The two passes of `outputFiles`, `&` first and `'` second, escape
      each character once: the `&` the second pass inserts is not escaped
      again. */
  lemma {:induction false} TwoPassesEscape(s: string)
    ensures Replaced(Replaced(s, '&', "&amp;"), '\'', "&apos;") == Escaped(s)
  {
    if |s| > 0 {
      var head := if s[0] == '&' then "&amp;" else [s[0]];
      assert Replaced(s, '&', "&amp;") == head + Replaced(s[1..], '&', "&amp;");
      ReplacedAppend(head, Replaced(s[1..], '&', "&amp;"), '\'', "&apos;");
      TwoPassesEscape(s[1..]);
      if s[0] == '&' {
        ReplacedWithout(head, '\'', "&apos;");
      } else {
        assert Replaced(head, '\'', "&apos;") == EscapeChar(s[0]) + Replaced([], '\'', "&apos;");
      }
    }
  }

  /** The escaping of `outputFiles`: every `&` becomes `&amp;`, then
      every `'` becomes `&apos;`. */
  method Escape(name: string) returns (r: string)
    ensures r == Escaped(name)
  {
    var amp := ReplaceAll(name, '&', "&amp;");
    r := ReplaceAll(amp, '\'', "&apos;");
    TwoPassesEscape(name);
  }

  /** Each `&` adds four characters and each `'` five. */
  lemma {:induction false} EscapedLength(s: string)
    ensures |Escaped(s)| == |s| + 4 * Count(s, '&') + 5 * Count(s, '\'')
  {
    if |s| > 0 {
      EscapedLength(s[1..]);
    }
  }

  /** No `'` is left in an escaped name. */
  lemma {:induction false} EscapedHasNoApostrophe(s: string)
    ensures '\'' !in Escaped(s)
  {
    if |s| > 0 {
      EscapedHasNoApostrophe(s[1..]);
      assert '\'' !in EscapeChar(s[0]);
      assert Escaped(s) == EscapeChar(s[0]) + Escaped(s[1..]);
    }
  }

  /** A name with neither `&` nor `'` is written as it is. */
  lemma {:induction false} EscapedPlain(s: string)
    requires '&' !in s && '\'' !in s
    ensures Escaped(s) == s
  {
    if |s| > 0 {
      EscapedPlain(s[1..]);
      assert [s[0]] + s[1..] == s;
    }
  }

  /** Reading the XML entities `&amp;` and `&apos;` back. */
  function Unescape(t: string): string
    decreases |t|
  {
    if |t| == 0 then []
    else if |t| >= 5 && t[..5] == "&amp;" then ['&'] + Unescape(t[5..])
    else if |t| >= 6 && t[..6] == "&apos;" then ['\''] + Unescape(t[6..])
    else [t[0]] + Unescape(t[1..])
  }

  /** The escaping loses nothing: the name is recovered from the report. */
  lemma {:induction false} UnescapeEscaped(s: string)
    ensures Unescape(Escaped(s)) == s
  {
    if |s| > 0 {
      var head, t := EscapeChar(s[0]), Escaped(s);
      assert t == head + Escaped(s[1..]);
      UnescapeEscaped(s[1..]);
      if s[0] == '&' {
        assert t[..5] == "&amp;" && t[5..] == Escaped(s[1..]);
      } else if s[0] == '\'' {
        assert t[..5][2] == 'p';
        assert t[..6] == "&apos;" && t[6..] == Escaped(s[1..]);
      } else {
        assert t[0] == s[0] && t[1..] == Escaped(s[1..]);
        assert |t| >= 5 ==> t[..5][0] != '&';
        assert |t| >= 6 ==> t[..6][0] != '&';
      }
      assert [s[0]] + s[1..] == s;
    }
  }

  const LinePrefix: string := "<file name=\""
  const LineSuffix: string := "\"/>\n"

  /** The line `outputFiles` emits for a listed file. */
  function FileLine(escaped: string): string {
    LinePrefix + escaped + LineSuffix
  }

  /** The two reports: names under git control and the others. */
  datatype Reports = Reports(gitXml: string, nonGitXml: string)

  /** `outputFiles`: a listed file's escaped line is appended to the git
      report when the folder is under git and to the non-git report
      otherwise; an unlisted file produces nothing. */
  method OutputFiles(name: string, git: bool, reports: Reports) returns (r: Reports)
    ensures !IsListedFile(name) ==> r == reports
    ensures IsListedFile(name) && git ==>
      r == reports.(gitXml := reports.gitXml + FileLine(Escaped(name)))
    ensures IsListedFile(name) && !git ==>
      r == reports.(nonGitXml := reports.nonGitXml + FileLine(Escaped(name)))
  {
    r := reports;
    if IsListedFile(name) {
      var escaped := Escape(name);
      if git {
        r := r.(gitXml := r.gitXml + FileLine(escaped));
      } else {
        r := r.(nonGitXml := r.nonGitXml + FileLine(escaped));
      }
    }
  }

  /** The name is recovered from the line: the text between the opening
      and the closing quote unescapes to it. */
  lemma FileLineNamesFile(name: string)
    ensures var line := FileLine(Escaped(name));
      |line| >= |LinePrefix| + |LineSuffix| &&
      line[..|LinePrefix|] == LinePrefix && line[|line| - |LineSuffix|..] == LineSuffix &&
      Unescape(line[|LinePrefix|..|line| - |LineSuffix|]) == name
  {
    var line := FileLine(Escaped(name));
    assert line[|LinePrefix|..|line| - |LineSuffix|] == Escaped(name);
    UnescapeEscaped(name);
  }
}
