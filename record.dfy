/**
 * One leaf of the results tree: the directory `<patch>/<test>` that holds a
 * `retcode` file, turned into a `Test` record. The directory path is a list of
 * component names; the text of `<path>/retcode` is an input, since reading it
 * is file I/O.
 */
module Record {
  import opened Wrappers
  import opened Decimal

  datatype Test = Test(patch: u8, result: i64, test: string)

  /** A directory path: whether it starts at the root, and its normal components in order. */
  datatype Path = Path(absolute: bool, names: seq<string>)

  /** `Path::file_name`: the last component, absent for the root or the empty path. */
  function FileName(p: Path): (r: Option<string>)
    ensures r.Some? <==> p.names != []
    ensures r.Some? ==> r.value == p.names[|p.names| - 1]
  {
    if p.names == [] then None else Some(p.names[|p.names| - 1])
  }

  /** `Path::parent`: the path without its last component, absent for the root or the empty path. */
  function Parent(p: Path): (r: Option<Path>)
    ensures r.Some? <==> p.names != []
    ensures r.Some? ==> r.value.absolute == p.absolute && r.value.names + [p.names[|p.names| - 1]] == p.names
  {
    if p.names == [] then None else Some(Path(p.absolute, p.names[..|p.names| - 1]))
  }

  /** The patch id: the parent directory's name parsed as `u8`; 0 when it does not parse or there is no parent. */
  function PatchIdOf(parent: Option<Path>): (id: u8)
    requires parent.Some? ==> FileName(parent.value).Some?
    ensures id != 0 ==> parent.Some? && ParseU8(FileName(parent.value).value) == Some(id)
  {
    match parent
    case Some(dir) => ParseU8(FileName(dir).value).GetOr(0)
    case None => 0
  }

  /** The exit code: the `retcode` text parsed as `i64` exactly as read, or the sentinel 404. */
  function ExitCodeOf(retcode: string): (code: i64)
    ensures code != 404 ==> ParseI64(retcode) == Some(code)
    ensures ParseI64(retcode).None? ==> code == 404
  {
    ParseI64(retcode).GetOr(404)
  }

  /**
   * `Test::new`. The source unwraps the directory's name, its parent's name and
   * the result of reading `retcode`, so all three must be there.
   */
  function NewTest(p: Path, retcode: Option<string>): (t: Test)
    requires FileName(p).Some?
    requires Parent(p).Some? ==> FileName(Parent(p).value).Some?
    requires retcode.Some?
    ensures t.test == p.names[|p.names| - 1]
    ensures t.patch == ParseU8(p.names[|p.names| - 2]).GetOr(0)
    ensures t.result == ParseI64(retcode.value).GetOr(404)
  {
    Test(PatchIdOf(Parent(p)), ExitCodeOf(retcode.value), FileName(p).value)
  }

  /** A path `Test::new` accepts names at least two directories, so `parent()` never takes its `None` arm there. */
  lemma NamedPathHasParent(p: Path)
    requires FileName(p).Some?
    requires Parent(p).Some? ==> FileName(Parent(p).value).Some?
    ensures Parent(p).Some? && |p.names| >= 2
  {
  }

  /** Without a parent directory the patch id is 0; with one, it is that directory's number when it has one. */
  lemma PatchIdDefaults(parent: Option<Path>)
    requires parent.Some? ==> FileName(parent.value).Some?
    ensures parent.None? ==> PatchIdOf(parent) == 0
    ensures parent.Some? ==> var name := FileName(parent.value).value;
              PatchIdOf(parent) == (if ParseU8(name).Some? then ParseU8(name).value else 0)
  {
  }

  /** A directory named by a number below 256 gives that patch id. */
  lemma PatchIdOfNumberedDir(dirs: seq<string>, n: u8)
    ensures PatchIdOf(Some(Path(false, dirs + [DecimalString(n)]))) == n
  {
    ParseU8DecimalString(n);
  }

  /** A directory named `patchA` is not a number, so the record's patch id is 0. */
  lemma PatchIdOfNamedDir()
    ensures PatchIdOf(Some(Path(false, ["results", "patchA"]))) == 0
  {
    assert !IsDigit("patchA"[0]);
  }

  /** Text that is not an integer, or an integer followed by a newline, gives the sentinel 404. */
  lemma ExitCodeSentinel()
    ensures ExitCodeOf("abc") == 404
    ensures ExitCodeOf("0\n") == 404
    ensures ExitCodeOf("0") == 0
    ensures ExitCodeOf("-1") == -1
  {
    assert !IsDigit("abc"[0]);
    ParsersRejectTrailingText("0", '\n');
    assert "0" + ['\n'] == "0\n";
    assert DecimalString(0) == "0" && DecimalString(1) == "1";
    ParseI64DecimalString(0);
    ParseI64Negative(1);
    assert "-" + DecimalString(1) == "-1";
  }

  /** `Clone for Test`: a field-by-field copy. */
  function Clone(t: Test): (c: Test)
    ensures c == t
  {
    Test(t.patch, t.result, t.test)
  }
}
