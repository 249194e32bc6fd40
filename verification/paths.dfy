/** `os.path.splitext` as POSIX Python defines it, used to name the exported files. */
module Paths {

  /** `s.rfind(c)`: the index of the last `c` in `s`, or -1 when there is none. */
  function LastIndex(s: string, c: char): (r: int)
    ensures -1 <= r < |s|
    ensures r >= 0 ==> s[r] == c
    ensures forall k :: r < k < |s| ==> s[k] != c
    decreases |s|
  {
    if |s| == 0 then -1
    else if s[|s| - 1] == c then |s| - 1
    else LastIndex(s[..|s| - 1], c)
  }

  /** `os.path.splitext(p)`: split at the last '.' of the last path component, unless
      that component has only dots before it (".pdf", "..docx" keep an empty extension).
      An extension is split off exactly when the last component has a dot after some
      character that is not a dot. */
  function SplitExt(p: string): (r: (string, string))
    ensures r.0 + r.1 == p
    ensures r.1 == [] || (r.1[0] == '.' && '.' !in r.1[1..] && '/' !in r.1)
    ensures r.1 != [] ==> exists k :: LastIndex(p, '/') < k < |r.0| && r.0[k] != '.'
    ensures r.1 == [] ==> forall i, j :: LastIndex(p, '/') < i < j < |p| && p[i] != '.' ==> p[j] != '.'
  {
    var sep := LastIndex(p, '/');
    var dot := LastIndex(p, '.');
    if dot > sep && exists k :: sep + 1 <= k < dot && p[k] != '.' then
      assert forall k :: 1 <= k < |p[dot..]| ==> p[dot..][k] == p[dot + k];
      (p[..dot], p[dot..])
    else
      (p, [])
  }

  /** The root of a base name (no '/', not starting with '.') that ends in a one-dot
      extension is the name without that extension. */
  lemma SplitExtOfBaseName(stem: string, ext: string)
    requires |stem| > 0 && stem[0] != '.' && '/' !in stem
    requires |ext| > 0 && ext[0] == '.' && '.' !in ext[1..] && '/' !in ext
    ensures SplitExt(stem + ext) == (stem, ext)
  {
    var p := stem + ext;
    var sep := LastIndex(p, '/');
    var dot := LastIndex(p, '.');
    assert p[|stem|] == '.';
    assert forall k :: |stem| < k < |p| ==> p[k] == ext[1..][k - |stem| - 1];
    assert dot == |stem|;
    assert sep == -1;
    assert p[0] == stem[0];
    assert p[..dot] == stem && p[dot..] == ext;
  }

  /** A name whose only dot is leading keeps an empty extension. */
  lemma SplitExtLeadingDot()
    ensures SplitExt(".pdf") == (".pdf", "")
  {
    var name := ".pdf";
    assert name[0] == '.' && name[1] == 'p' && name[2] == 'd' && name[3] == 'f';
    assert LastIndex(name, '.') == 0;
  }

  /** The extension is split off the base name. */
  lemma SplitExtNotes()
    ensures SplitExt("notes.pdf") == ("notes", ".pdf")
  {
    assert "notes" + ".pdf" == "notes.pdf";
    assert ".pdf"[1..] == "pdf";
    SplitExtOfBaseName("notes", ".pdf");
  }
}
