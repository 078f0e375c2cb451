/**
  The parts of Python's `os.path` on POSIX that name an attachment:
  `basename` and `splitext`, with the separator `/` and the extension
  separator `.`.
 */
module PosixPath {

  const Sep: char := '/'
  const ExtSep: char := '.'

  /** Python's `str.rfind` for one character: the last index of `c` in `s`, or -1. */
  function RFind(s: string, c: char): (r: int)
    ensures -1 <= r < |s|
    ensures r >= 0 ==> s[r] == c
    ensures forall i :: r < i < |s| ==> s[i] != c
  {
    if s == [] then -1
    else if s[|s| - 1] == c then |s| - 1
    else RFind(s[..|s| - 1], c)
  }

  /** The last occurrence is the only one with no occurrence after it. */
  lemma RFindAt(s: string, c: char, k: int)
    requires 0 <= k < |s| && s[k] == c
    requires forall i :: k < i < |s| ==> s[i] != c
    ensures RFind(s, c) == k
  {
  }

  /** `os.path.basename`: what follows the last separator. */
  function BaseName(p: string): (r: string)
    ensures Sep !in r
    ensures |r| <= |p| && r == p[|p| - |r|..]
    ensures |r| < |p| ==> p[|p| - |r| - 1] == Sep
  {
    p[RFind(p, Sep) + 1..]
  }

  /** True when some character of `p[from..to]` is not an extension separator. */
  predicate HasNonDot(p: string, from: int, to: int)
    requires 0 <= from <= to <= |p|
  {
    exists i :: from <= i < to && p[i] != ExtSep
  }

  /**
    `os.path.splitext`: splits at the last `.` when it lies in the final path
    component and is preceded there by something other than dots (so a leading
    dot, as in `.bashrc`, starts no extension); otherwise the extension is empty.
   */
  function SplitExt(p: string): (r: (string, string))
    ensures r.0 + r.1 == p
    ensures r.1 == [] || (r.1[0] == ExtSep && ExtSep !in r.1[1..] && Sep !in r.1)
  {
    var sep := RFind(p, Sep);
    var dot := RFind(p, ExtSep);
    if dot > sep && HasNonDot(p, sep + 1, dot) then
      assert p[..dot] + p[dot..] == p;
      (p[..dot], p[dot..])
    else
      (p, [])
  }

  /** The base name of `dir/name` is `name` when `name` holds no separator. */
  lemma BaseNameOfFileName(dir: string, name: string)
    requires Sep !in name
    ensures BaseName(dir + [Sep] + name) == name
  {
    var p := dir + [Sep] + name;
    var sep := |dir|;
    forall i | sep < i < |p| ensures p[i] != Sep {
      assert p[i] == name[i - sep - 1];
    }
    RFindAt(p, Sep, sep);
    assert p[sep + 1..] == name;
  }

  /**
    A file name `stem.ext` whose stem does not start with a dot and whose
    extension holds no dot splits into `dir/stem` and `.ext`.
   */
  lemma SplitExtOfFileName(dir: string, stem: string, ext: string)
    requires stem != [] && stem[0] != ExtSep
    requires Sep !in stem && Sep !in ext && ExtSep !in ext
    ensures SplitExt(dir + [Sep] + stem + [ExtSep] + ext) == (dir + [Sep] + stem, [ExtSep] + ext)
  {
    var p := dir + [Sep] + stem + [ExtSep] + ext;
    var sep, dot := |dir|, |dir| + 1 + |stem|;
    forall i | sep < i < |p| ensures p[i] != Sep {
      if i < dot { assert p[i] == stem[i - sep - 1]; }
      else if i > dot { assert p[i] == ext[i - dot - 1]; }
    }
    forall i | dot < i < |p| ensures p[i] != ExtSep {
      assert p[i] == ext[i - dot - 1];
    }
    RFindAt(p, Sep, sep);
    RFindAt(p, ExtSep, dot);
    assert p[sep + 1] == stem[0];
    assert HasNonDot(p, sep + 1, dot);
    assert p[..dot] == dir + [Sep] + stem;
    assert p[dot..] == [ExtSep] + ext;
  }

  /** Appending text without `c` leaves the last occurrence of `c` where it was. */
  lemma {:induction false} RFindAppend(p: string, s: string, c: char)
    requires c !in s
    ensures RFind(p + s, c) == RFind(p, c)
  {
    if s == [] {
      assert p + s == p;
    } else {
      var ps := p + s;
      assert ps[|ps| - 1] == s[|s| - 1];
      assert ps[..|ps| - 1] == p + s[..|s| - 1];
      RFindAppend(p, s[..|s| - 1], c);
    }
  }

  /** Text without a separator, appended to a path, extends its base name by that text. */
  lemma BaseNameAppend(p: string, s: string)
    requires Sep !in s
    ensures BaseName(p + s) == BaseName(p) + s
  {
    RFindAppend(p, s, Sep);
    assert (p + s)[RFind(p, Sep) + 1..] == p[RFind(p, Sep) + 1..] + s;
  }

  /** A final component that starts with a dot and holds no other dot has no extension. */
  lemma SplitExtOfHidden(dir: string, rest: string)
    requires Sep !in rest && ExtSep !in rest
    ensures SplitExt(dir + [Sep, ExtSep] + rest) == (dir + [Sep, ExtSep] + rest, [])
  {
    var p := dir + [Sep, ExtSep] + rest;
    var sep, dot := |dir|, |dir| + 1;
    forall i | sep < i < |p| ensures p[i] != Sep {
      if i > dot { assert p[i] == rest[i - dot - 1]; }
    }
    forall i | dot < i < |p| ensures p[i] != ExtSep {
      assert p[i] == rest[i - dot - 1];
    }
    RFindAt(p, Sep, sep);
    RFindAt(p, ExtSep, dot);
    assert !HasNonDot(p, sep + 1, dot);
  }

  /** A dot put between two separator-free parts gives a separator-free name with the dot at the seam. */
  lemma InsertDot(base: string, ext: string)
    requires Sep !in base && Sep !in ext
    ensures var name := base + [ExtSep] + ext;
      && Sep !in name
      && name[|base|] == ExtSep
      && name[..|base|] + name[|base| + 1..] == base + ext
  {
    var name := base + [ExtSep] + ext;
    forall i | 0 <= i < |name| ensures name[i] != Sep {
      if i < |base| { assert name[i] == base[i]; }
      else if i > |base| { assert name[i] == ext[i - |base| - 1]; }
    }
    assert name[..|base|] == base && name[|base| + 1..] == ext;
  }
}
