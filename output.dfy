/** The check that `Graph` (src/mechanrich/mechanrich.py) applies to the
    path of an image before writing a plot to it: the extension of the file
    name, as POSIX `os.path.basename` and `os.path.splitext` compute it,
    must be one of four image formats, or a ValueError is raised. */
module OutputPath {
  /** The image formats a plot can be written in. */
  const ACCEPTED_EXTENSIONS: seq<string> := [".pdf", ".svg", ".png", ".jpg"]

  const FORMAT_MESSAGE: string := "Graph image must be either \".pdf\", \".svg\", \".png\", or \".jpg\"!"

  /** The outcome of the check: the path passes, or ValueError is raised. */
  datatype Checked = Passed | ValueError(message: string)

  /** `str.rfind` for one character: the index of its last occurrence, or
      -1 when it does not occur. */
  function RFind(s: string, c: char): (i: int)
    ensures -1 <= i < |s|
    ensures i >= 0 ==> s[i] == c
    ensures forall j :: i < j < |s| ==> s[j] != c
  {
    if s == [] then -1
    else if s[|s| - 1] == c then |s| - 1
    else RFind(s[..|s| - 1], c)
  }

  /** The last occurrence in `t + u` of a character that occurs in `u` is
      found inside `u`. */
  lemma {:induction false} RFindAppend(t: string, u: string, c: char)
    requires c in u
    ensures RFind(t + u, c) == |t| + RFind(u, c)
    decreases |u|
  {
    var tu := t + u;
    if u[|u| - 1] != c {
      var u' := u[..|u| - 1];
      assert tu[..|tu| - 1] == t + u';
      assert c in u' by {
        var k :| 0 <= k < |u| && u[k] == c;
        assert u'[k] == c;
      }
      RFindAppend(t, u', c);
    }
  }

  /** A character that does not occur in `u` is looked for in `t`. */
  lemma {:induction false} RFindSkip(t: string, u: string, c: char)
    requires c !in u
    ensures RFind(t + u, c) == RFind(t, c)
    decreases |u|
  {
    if u != [] {
      var tu := t + u;
      var u' := u[..|u| - 1];
      assert tu[..|tu| - 1] == t + u';
      assert tu[|tu| - 1] == u[|u| - 1];
      RFindSkip(t, u', c);
    } else {
      assert t + u == t;
    }
  }

  /** POSIX `os.path.basename`: what follows the last '/'. */
  function Basename(path: string): (name: string)
    ensures '/' !in name
    ensures |name| <= |path| && name == path[|path| - |name|..]
    ensures |name| < |path| ==> path[|path| - |name| - 1] == '/'
  {
    path[RFind(path, '/') + 1..]
  }

  /** Some character of `s[lo..hi]` is not a '.'. */
  predicate HasNonDot(s: string, lo: int, hi: int)
    requires 0 <= lo <= hi <= |s|
  {
    exists k :: lo <= k < hi && s[k] != '.'
  }

  /** POSIX `os.path.splitext`: the extension is the last '.' of the last
      path component and what follows it, unless that component has
      nothing but dots before it (a leading-dot name such as ".pdf" has no
      extension). */
  function SplitExt(p: string): (r: (string, string))
    ensures r.0 + r.1 == p
    ensures r.1 != [] ==> r.1[0] == '.' && forall j :: 0 < j < |r.1| ==> r.1[j] != '.' && r.1[j] != '/'
    ensures r.1 != [] ==> HasNonDot(p, RFind(p, '/') + 1, |r.0|)
    ensures r.1 == [] && '.' in p ==>
      RFind(p, '.') < RFind(p, '/') || !HasNonDot(p, RFind(p, '/') + 1, RFind(p, '.'))
  {
    var sep := RFind(p, '/');
    var dot := RFind(p, '.');
    if dot > sep && HasNonDot(p, sep + 1, dot) then (p[..dot], p[dot..]) else (p, [])
  }

  /** `Graph.__check_output`. */
  function CheckOutput(path: string): (r: Checked)
    ensures r.ValueError? ==> r.message == FORMAT_MESSAGE
  {
    var extension := SplitExt(Basename(path)).1;
    if extension in ACCEPTED_EXTENSIONS then Passed else ValueError(FORMAT_MESSAGE)
  }

  /** Every accepted extension is a '.' followed by three other
      characters. */
  lemma AcceptedShape(x: string)
    requires x in ACCEPTED_EXTENSIONS
    ensures |x| == 4 && x[0] == '.' && forall j :: 0 < j < 4 ==> x[j] != '.'
  {
  }

  /** A file name has an accepted extension exactly when it ends with one
      and has, before it, some character other than '.'. */
  lemma NamePasses(name: string)
    requires '/' !in name
    ensures SplitExt(name).1 in ACCEPTED_EXTENSIONS <==>
      |name| >= 4 && name[|name| - 4..] in ACCEPTED_EXTENSIONS && HasNonDot(name, 0, |name| - 4)
  {
    var r := SplitExt(name);
    assert RFind(name, '/') == -1;
    if r.1 in ACCEPTED_EXTENSIONS {
      AcceptedShape(r.1);
      assert name[|name| - 4..] == r.1;
      assert |r.0| == |name| - 4;
    }
    if |name| >= 4 && name[|name| - 4..] in ACCEPTED_EXTENSIONS && HasNonDot(name, 0, |name| - 4) {
      var x := name[|name| - 4..];
      AcceptedShape(x);
      assert name == name[..|name| - 4] + x;
      assert '.' in x by { assert x[0] == '.'; }
      RFindAppend(name[..|name| - 4], x, '.');
      assert RFind(x, '.') == 0;
      assert r.1 == x;
    }
  }

  /** A path passes exactly when its file name ends with one of the four
      accepted extensions (all of them a dot and three letters, in lower
      case) and has, before it, some character other than '.'. */
  lemma CheckOutputPasses(path: string)
    ensures var name := Basename(path);
      CheckOutput(path) == Passed <==>
        |name| >= 4 && name[|name| - 4..] in ACCEPTED_EXTENSIONS && HasNonDot(name, 0, |name| - 4)
  {
    NamePasses(Basename(path));
  }

  /** The file name of a path in a directory is what follows the
      directory. */
  lemma BasenameOf(dir: string, name: string)
    requires |dir| > 0 && dir[|dir| - 1] == '/' && '/' !in name
    ensures Basename(dir + name) == name
  {
    RFindSkip(dir, name, '/');
  }

  /** The path the repository's test writes a plot to passes. */
  lemma CheckOutputPdf()
    ensures CheckOutput("test_data/" + "fake_network.pdf") == Passed
  {
    BasenameOf("test_data/", "fake_network.pdf");
    NamePasses("fake_network.pdf");
    assert "fake_network.pdf"[12..] == ".pdf";
    assert HasNonDot("fake_network.pdf", 0, 12) by { assert "fake_network.pdf"[0] != '.'; }
  }

  /** The path the repository's test expects a ValueError for. */
  lemma CheckOutputExt()
    ensures CheckOutput("test_data/" + "fake_network.ext") == ValueError(FORMAT_MESSAGE)
  {
    BasenameOf("test_data/", "fake_network.ext");
    NamePasses("fake_network.ext");
    assert "fake_network.ext"[12..] == ".ext";
  }

  /** A name that is only an extension is refused. */
  lemma CheckOutputDotName()
    ensures CheckOutput("plots/" + ".pdf").ValueError?
  {
    BasenameOf("plots/", ".pdf");
    NamePasses(".pdf");
    assert !HasNonDot(".pdf", 0, 0);
  }

  /** An extension in upper case is refused. */
  lemma CheckOutputUpperCase()
    ensures CheckOutput("plots/" + "network.PDF").ValueError?
  {
    BasenameOf("plots/", "network.PDF");
    NamePasses("network.PDF");
    assert "network.PDF"[7..] == ".PDF";
  }

  /** An accepted extension on a directory rather than on the file name is
      refused. */
  lemma CheckOutputDirectoryExtension()
    ensures CheckOutput("plots.pdf/" + "network").ValueError?
  {
    BasenameOf("plots.pdf/", "network");
    NamePasses("network");
    assert "network"[3..] == "work";
  }
}
