/** Output-target and path-name decisions of `BlockCompressor::call` and
    `FileCompressTask::call`: recognising the special outputs, normalising
    directory names and deriving the output name of every input file. */
module Paths {
  import opened Wrappers
  import opened Text

  /** `PATH_SEPARATOR` of a POSIX build (util.hpp is not part of this model;
      a Windows build uses a backslash). */
  const PathSeparator: char := '/'

  /** Extension of every compressed file the driver names itself. */
  const Extension: string := ".knz"

  /** `s` starts with `p` once upper-cased; `p` is upper case already. */
  predicate PrefixIgnoringCase(s: string, p: string) {
    |p| <= |s| && forall i :: 0 <= i < |p| ==> UpperChar(s[i]) == p[i]
  }

  /** Outputs that bypass every file check: names starting with NONE (the
      null sink) or STDOUT (standard output), in any letter case. */
  function IsSpecialOutput(name: string): (r: bool)
    ensures r <==> PrefixIgnoringCase(name, "NONE") || PrefixIgnoringCase(name, "STDOUT")
  {
    var upper := Upper(name);
    HasPrefix(upper, "NONE") || HasPrefix(upper, "STDOUT")
  }

  /** The early rejection in `call()`: standard output cannot be shared by
      several jobs. Unlike `IsSpecialOutput` this is an exact comparison and
      it looks at the job count, not at the number of files. */
  function RejectsStdout(name: string, jobs: int): (r: bool)
    ensures r <==> jobs > 1 && |name| == 6 && PrefixIgnoringCase(name, "STDOUT")
  {
    jobs > 1 && Upper(name) == "STDOUT"
  }

  lemma SpecialOutputIgnoresCase(a: string, b: string)
    requires |a| == |b|
    requires forall i :: 0 <= i < |a| ==> SameIgnoringCase(a[i], b[i])
    ensures IsSpecialOutput(a) == IsSpecialOutput(b)
  {
  }

  /** Anything may follow the reserved word. */
  lemma SpecialOutputPrefixClosed(name: string, suffix: string)
    requires IsSpecialOutput(name)
    ensures IsSpecialOutput(name + suffix)
  {
    assert forall i :: 0 <= i < |name| ==> (name + suffix)[i] == name[i];
  }

  /** A rejected STDOUT is always special, but the converse fails: a name
      that merely starts with STDOUT is special and is never rejected, and
      neither is STDOUT with a single job. */
  lemma RejectionIsNarrowerThanSpecial()
    ensures forall name, jobs :: RejectsStdout(name, jobs) ==> IsSpecialOutput(name)
    ensures IsSpecialOutput("stdout.log") && !RejectsStdout("stdout.log", 4)
    ensures IsSpecialOutput("Stdout") && !RejectsStdout("Stdout", 1)
    ensures IsSpecialOutput("none") && !IsSpecialOutput("out/none")
  {
    assert PrefixIgnoringCase("stdout.log", "STDOUT");
    assert PrefixIgnoringCase("Stdout", "STDOUT");
    assert PrefixIgnoringCase("none", "NONE");
    assert !PrefixIgnoringCase("out/none", "NONE") by {
      assert UpperChar("out/none"[0]) != "NONE"[0];
    }
    assert !PrefixIgnoringCase("out/none", "STDOUT") by {
      assert UpperChar("out/none"[0]) != "STDOUT"[0];
    }
  }

  predicate EndsWithSeparator(s: string) {
    |s| > 0 && s[|s| - 1] == PathSeparator
  }

  /** The input directory name as `call()` prepares it (lines 267-275): one
      trailing '.' is dropped, then a separator is appended unless the name
      already ends with one or has become empty. */
  function NormaliseInputDir(name: string): (r: string)
    requires |name| > 0
    ensures r == [] || EndsWithSeparator(r)
    ensures r == [] <==> name == "."
    ensures name[|name| - 1] == '.' ==> |name| - 1 <= |r| <= |name| && r[..|name| - 1] == name[..|name| - 1]
    ensures name[|name| - 1] != '.' ==> |name| <= |r| <= |name| + 1 && r[..|name|] == name
  {
    var stripped := if name[|name| - 1] == '.' then name[..|name| - 1] else name;
    if |stripped| != 0 && stripped[|stripped| - 1] != PathSeparator then stripped + [PathSeparator]
    else stripped
  }

  /** Normalising an already normalised directory changes nothing. */
  lemma NormaliseInputDirIdempotent(name: string)
    requires |name| > 0 && name != "."
    ensures NormaliseInputDir(NormaliseInputDir(name)) == NormaliseInputDir(name)
  {
  }

  /** ".." loses its last dot and names the current directory instead. */
  lemma NormaliseParentDir()
    ensures NormaliseInputDir("..") == "./"
  {
  }

  /** The output directory name (lines 288-292): a separator is appended
      when missing; no dot is stripped. */
  function NormaliseOutputDir(name: string): (r: string)
    requires |name| > 0
    ensures EndsWithSeparator(r)
    ensures |r| == (if EndsWithSeparator(name) then |name| else |name| + 1)
    ensures r[..|name|] == name
  {
    if name[|name| - 1] != PathSeparator then name + [PathSeparator] else name
  }

  lemma NormaliseOutputDirIdempotent(name: string)
    requires |name| > 0
    ensures NormaliseOutputDir(NormaliseOutputDir(name)) == NormaliseOutputDir(name)
  {
  }

  /** `std::string::substr` beyond the end of the input name throws
      `std::out_of_range`, which nothing in `call()` catches. */
  datatype NameError = SubstrOutOfRange

  /** Output name of one input file (lines 313-322 and 340-349): no output
      name gives `<input>.knz`; a directory input with an ordinary output
      directory mirrors the input path below the output directory, dropping
      `|inDir| + 1` leading characters; otherwise the output name is used as
      given. */
  function OutputNameFor(outName: string, inName: string, inputIsDir: bool, special: bool, inDir: string)
    : (r: Result<string, NameError>)
    ensures |outName| == 0 ==> r == Success(inName + Extension)
    ensures |outName| > 0 && !(inputIsDir && !special) ==> r == Success(outName)
    ensures |outName| > 0 && inputIsDir && !special ==>
      (r.Failure? <==> |inName| < |inDir| + 1)
    ensures r.Success? && |outName| > 0 && inputIsDir && !special ==>
      |r.value| == |outName| + |inName| - |inDir| - 1 + |Extension|
  {
    if |outName| == 0 then Success(inName + Extension)
    else if inputIsDir && !special then
      if |inDir| + 1 > |inName| then Failure(SubstrOutOfRange)
      else Success(outName + inName[|inDir| + 1..] + Extension)
    else Success(outName)
  }

  /** Without an output name the input name is recovered by dropping the
      extension. */
  lemma DefaultNameRoundTrip(inName: string, inputIsDir: bool, special: bool, inDir: string)
    ensures var r := OutputNameFor("", inName, inputIsDir, special, inDir);
      r.Success? && |r.value| == |inName| + 4 && r.value[..|inName|] == inName
      && r.value[|inName|..] == Extension
  {
  }

  /** When the listed file name is the normalised input directory, one more
      character and a relative path, the output mirrors that relative path
      below the output directory. Which names the lister produces is up to
      `createFileList`, which is not part of this model. */
  lemma MirrorsRelativePath(outDir: string, inDir: string, c: char, rel: string)
    requires |outDir| > 0
    ensures OutputNameFor(outDir, inDir + [c] + rel, true, false, inDir)
      == Success(outDir + rel + Extension)
  {
    assert (inDir + [c] + rel)[|inDir| + 1..] == rel;
  }

  /** When the lister joins the user's name and the entry with a separator
      and the user's name had no trailing separator, the dropped character is
      the entry's first one: "in" and "in/a.txt" give "out/.txt.knz". */
  lemma DropsFirstCharacterOfEntry()
    ensures NormaliseInputDir("in") == "in/"
    ensures OutputNameFor("out/", "in/a.txt", true, false, "in/") == Success("out/.txt.knz")
  {
    assert "in/a.txt"[4..] == ".txt";
    assert "out/" + ".txt" + Extension == "out/.txt.knz";
  }
}
