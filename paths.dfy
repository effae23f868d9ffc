/** Path arguments, `ensure_path_type`, and the few pathlib queries the cutter uses. */
module Paths {
  import opened Results

  /** A filesystem path, as the text pathlib would print for it. */
  datatype Path = Path(text: string)

  /** What a caller may pass where the cutter expects `Path | str`. */
  datatype PathArg =
    | PathObj(path: Path)
    | Str(s: string)
    | Other(typeName: string)

  /** Returns a Path unchanged, converts a str, and raises TypeError for anything else. */
  function EnsurePathType(arg: PathArg): (r: Result<Path>)
    ensures r.Ok? <==> !arg.Other?
    ensures arg.PathObj? ==> r == Ok(arg.path)
    ensures arg.Str? ==> r == Ok(Path(arg.s))
    ensures arg.Other? ==> r == Err(TypeError(arg.typeName))
  {
    match arg
    case PathObj(p) => Ok(p)
    case Str(s) => Ok(Path(s))
    case Other(t) => Err(TypeError(t))
  }

  /** Converting a value that is already a converted Path changes nothing. */
  lemma EnsurePathTypeIdempotent(arg: PathArg)
    requires EnsurePathType(arg).Ok?
    ensures EnsurePathType(PathObj(EnsurePathType(arg).value)) == EnsurePathType(arg)
  {
  }

  /** The index of the last occurrence of `c` in `s`, if any. */
  function LastIndexOf(s: string, c: char): (r: Option<nat>)
    ensures r.Some? ==> r.value < |s| && s[r.value] == c
    ensures r.Some? ==> forall k :: r.value < k < |s| ==> s[k] != c
    ensures r.None? ==> forall k :: 0 <= k < |s| ==> s[k] != c
    decreases |s|
  {
    if |s| == 0 then None
    else if s[|s| - 1] == c then Some(|s| - 1)
    else LastIndexOf(s[..|s| - 1], c)
  }

  /** The final component of the path (`PurePath.name`). */
  function Name(p: Path): (r: string)
    ensures forall k :: 0 <= k < |r| ==> r[k] != '/'
    ensures |r| <= |p.text| && r == p.text[|p.text| - |r|..]
    ensures |r| < |p.text| ==> p.text[|p.text| - |r| - 1] == '/'
  {
    match LastIndexOf(p.text, '/')
    case None => p.text
    case Some(i) => p.text[i + 1..]
  }

  /** The extension of the final component (`PurePath.suffix`): from its last dot,
      unless that dot is the first or the last character of the name. */
  function Suffix(p: Path): (r: string)
    ensures r == "" || (r[0] == '.' && |r| >= 2 && |r| < |Name(p)|)
    ensures r != "" ==> r == Name(p)[|Name(p)| - |r|..]
    ensures r != "" ==> forall k :: 0 < k < |r| ==> r[k] != '.'
    ensures r != "" <==>
      && |Name(p)| >= 1 && Name(p)[|Name(p)| - 1] != '.'
      && exists k :: 0 < k < |Name(p)| - 1 && Name(p)[k] == '.'
  {
    var name := Name(p);
    match LastIndexOf(name, '.')
    case None => ""
    case Some(i) => if 0 < i < |name| - 1 then name[i..] else ""
  }

  /** The directory containing the path (`PurePath.parent`): "." for a bare name,
      "/" for an entry of the root. */
  function Parent(p: Path): (r: Path)
    ensures |Name(p)| == |p.text| ==> r == Path(".")
    ensures |Name(p)| == |p.text| - 1 ==> r == Path("/") && r.text + Name(p) == p.text
    ensures |Name(p)| < |p.text| - 1 ==> r.text + "/" + Name(p) == p.text
  {
    match LastIndexOf(p.text, '/')
    case None => Path(".")
    case Some(i) => if i == 0 then Path("/") else Path(p.text[..i])
  }
}
