/** File names as pathlib sees them: the stem used for skip detection and the
    name of the converted file. */
module Paths {
  import opened Wrappers

  /** The index of the last '.' in a name, if any. */
  function LastDot(name: string): (r: Option<nat>)
    ensures r.Some? ==> r.value < |name| && name[r.value] == '.'
    ensures r.Some? ==> forall j :: r.value < j < |name| ==> name[j] != '.'
    ensures r.None? ==> forall j :: 0 <= j < |name| ==> name[j] != '.'
  {
    if |name| == 0 then None
    else if name[|name| - 1] == '.' then Some(|name| - 1)
    else LastDot(name[..|name| - 1])
  }

  /** PurePath.stem: the name without its final suffix. A dot only starts a
      suffix when it is neither the first nor the last character. */
  function Stem(name: string): (s: string)
    ensures |s| <= |name| && s == name[..|s|]
    ensures |name| > 0 ==> |s| > 0
  {
    match LastDot(name)
    case Some(i) => if 0 < i < |name| - 1 then name[..i] else name
    case None => name
  }

  /** The file name `{stem}.webp` a converted image is saved under. */
  function OutputName(stem: string): string
  {
    stem + ".webp"
  }

  /** The converted file's own stem is the stem it was named after, so a later
      listing of the destination recognises it. */
  lemma StemOfOutput(stem: string)
    requires |stem| > 0
    ensures Stem(OutputName(stem)) == stem
  {
    var name := OutputName(stem);
    assert name[|stem|] == '.';
    assert forall j :: |stem| < j < |name| ==> name[j] != '.' by {
      assert name[|stem| + 1..] == "webp";
    }
    var d := LastDot(name);
    assert d == Some(|stem|);
    assert name[..|stem|] == stem;
  }
}
