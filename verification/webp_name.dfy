/** The output-name rewrite of the batch compressor: the name's last extension
    is removed with the regular expression `/\.[^/.]+$/` and `.webp` is
    appended. */
module WebpName {
  import opened CompressionTypes

  /** The suffix every output name ends with. */
  const Suffix: string := ".webp"

  /** The regular expression `/\.[^/.]+$/` matches `s` starting at index `i`:
      a dot, then one or more characters none of which is `/` or `.`, then the
      end of the string. */
  predicate ExtensionAt(s: string, i: int) {
    && 0 <= i < |s| - 1
    && s[i] == '.'
    && forall j :: i < j < |s| ==> s[j] != '/' && s[j] != '.'
  }

  /** The expression matches at most one index: a second dot after the first
      would be inside the first match. */
  lemma ExtensionAtUnique(s: string, i: int, i': int)
    requires ExtensionAt(s, i) && ExtensionAt(s, i')
    ensures i == i'
  {
  }

  /** Walks back from index `j`, below which no character has yet been
      looked at, to the dot that starts the extension, if there is one. */
  function ScanBack(s: string, j: nat): (r: Option<nat>)
    requires j < |s|
    requires forall m :: j <= m < |s| ==> s[m] != '/' && s[m] != '.'
    ensures r.Some? ==> ExtensionAt(s, r.value)
    ensures r.None? ==> forall i :: !ExtensionAt(s, i)
    decreases j
  {
    if j == 0 then None
    else if s[j - 1] == '.' then Some(j - 1)
    else if s[j - 1] == '/' then None
    else ScanBack(s, j - 1)
  }

  /** Where the expression matches `s`, if anywhere. */
  function ExtensionStart(s: string): (r: Option<nat>)
    ensures r.Some? ==> ExtensionAt(s, r.value)
    ensures r.None? ==> forall i :: !ExtensionAt(s, i)
  {
    if |s| == 0 || s[|s| - 1] == '/' || s[|s| - 1] == '.' then None
    else ScanBack(s, |s| - 1)
  }

  /** `name.replace(/\.[^/.]+$/, '')`: the name without its last extension,
      or the name itself when the expression does not match. */
  function StripExtension(name: string): (r: string)
    ensures forall i :: ExtensionAt(name, i) ==> r == name[..i]
    ensures (forall i :: !ExtensionAt(name, i)) ==> r == name
    ensures |r| <= |name|
  {
    match ExtensionStart(name)
    case Some(i) =>
      assert forall i' :: ExtensionAt(name, i') ==> i' == i by {
        forall i' | ExtensionAt(name, i') ensures i' == i {
          ExtensionAtUnique(name, i, i');
        }
      }
      name[..i]
    case None => name
  }

  /** The name a converted file is given. */
  function OutputName(name: string): (r: string)
    ensures |r| >= |Suffix| && r[|r| - |Suffix|..] == Suffix
    ensures |r| <= |name| + |Suffix|
  {
    StripExtension(name) + Suffix
  }

  /** A name with an extension keeps its stem and gets `.webp` instead:
      `a.b.jpg` becomes `a.b.webp`. */
  lemma OutputNameReplacesExtension(stem: string, ext: string)
    requires |ext| > 0
    requires forall k :: 0 <= k < |ext| ==> ext[k] != '/' && ext[k] != '.'
    ensures OutputName(stem + "." + ext) == stem + Suffix
  {
    var s := stem + "." + ext;
    assert s[|stem|] == '.';
    forall j | |stem| < j < |s|
      ensures s[j] != '/' && s[j] != '.'
    {
      assert s[j] == ext[j - |stem| - 1];
    }
    assert ExtensionAt(s, |stem|);
    assert s[..|stem|] == stem;
  }

  /** A name the expression does not match keeps all of its characters:
      `noext` becomes `noext.webp` and `x.` becomes `x..webp`. */
  lemma OutputNameKeepsUnmatchedName(name: string)
    requires forall i :: !ExtensionAt(name, i)
    ensures OutputName(name) == name + Suffix
  {
  }

  /** A name containing no dot is never matched. */
  lemma NoDotNoExtension(name: string)
    requires forall k :: 0 <= k < |name| ==> name[k] != '.'
    ensures forall i :: !ExtensionAt(name, i)
  {
  }

  /** A name ending in a dot is never matched. */
  lemma TrailingDotNoExtension(name: string)
    requires |name| > 0 && name[|name| - 1] == '.'
    ensures forall i :: !ExtensionAt(name, i)
  {
  }

  /** The three examples the rewrite is usually explained with. */
  lemma OutputNameExamples()
    ensures OutputName("a.b.jpg") == "a.b.webp"
    ensures OutputName("noext") == "noext.webp"
    ensures OutputName("x.") == "x..webp"
  {
    OutputNameReplacesExtension("a.b", "jpg");
    assert "a.b" + "." + "jpg" == "a.b.jpg";
    NoDotNoExtension("noext");
    OutputNameKeepsUnmatchedName("noext");
    TrailingDotNoExtension("x.");
    OutputNameKeepsUnmatchedName("x.");
  }

  /** Renaming an already renamed file changes nothing. */
  lemma OutputNameIdempotent(name: string)
    ensures OutputName(OutputName(name)) == OutputName(name)
  {
    var stem := StripExtension(name);
    OutputNameReplacesExtension(stem, "webp");
    assert stem + "." + "webp" == stem + Suffix;
  }

  /** Two different inputs can get the same output name, so the archive of a
      batch holding `a.png` and `a.jpg` receives `a.webp` twice. */
  lemma OutputNameNotInjective()
    ensures "a.png" != "a.jpg"
    ensures OutputName("a.png") == OutputName("a.jpg") == "a.webp"
  {
    OutputNameReplacesExtension("a", "png");
    assert "a" + "." + "png" == "a.png";
    OutputNameReplacesExtension("a", "jpg");
    assert "a" + "." + "jpg" == "a.jpg";
    assert "a.png"[2] != "a.jpg"[2];
  }
}
