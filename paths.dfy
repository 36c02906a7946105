/** A model of the three POSIX path helpers the uploader calls (Python's
    posixpath.splitext, dirname and basename), over paths as strings. */
module Paths {

  const Sep: char := '/'
  const ExtSep: char := '.'

  /** Python's str.rfind for a single character: the index of the last `c`
      in `s`, or -1 when there is none. */
  function LastIndexOf(s: string, c: char): (r: int)
    ensures -1 <= r < |s|
    ensures r == -1 <==> c !in s
    ensures 0 <= r ==> s[r] == c
    ensures forall i :: r < i < |s| ==> s[i] != c
  {
    if |s| == 0 then -1
    else if s[|s| - 1] == c then |s| - 1
    else LastIndexOf(s[..|s| - 1], c)
  }

  /** The three facts in LastIndexOf's contract pin the index down. */
  lemma {:induction false} LastIndexOfUnique(s: string, c: char, r: int)
    requires -1 <= r < |s|
    requires 0 <= r ==> s[r] == c
    requires forall i :: r < i < |s| ==> s[i] != c
    ensures LastIndexOf(s, c) == r
  {
  }

  /** A match in the right part of a concatenation is the last one. */
  lemma {:induction false} LastIndexOfAppendRight(a: string, b: string, c: char)
    requires c in b
    ensures LastIndexOf(a + b, c) == |a| + LastIndexOf(b, c)
  {
    var s := a + b;
    var rb := LastIndexOf(b, c);
    assert s[|a| + rb] == b[rb];
    forall i | |a| + rb < i < |s| ensures s[i] != c {
      assert s[i] == b[i - |a|];
    }
    LastIndexOfUnique(s, c, |a| + rb);
  }

  /** With no match in the right part, the search falls back to the left. */
  lemma {:induction false} LastIndexOfAppendLeft(a: string, b: string, c: char)
    requires c !in b
    ensures LastIndexOf(a + b, c) == LastIndexOf(a, c)
  {
    var s := a + b;
    var ra := LastIndexOf(a, c);
    assert 0 <= ra ==> s[ra] == a[ra];
    forall i | ra < i < |s| ensures s[i] != c {
      if i < |a| {
        assert s[i] == a[i];
      } else {
        assert s[i] == b[i - |a|];
      }
    }
    LastIndexOfUnique(s, c, ra);
  }

  /** Searching a concatenation finds the match in the right part first. */
  lemma {:induction false} LastIndexOfAppend(a: string, b: string, c: char)
    ensures LastIndexOf(a + b, c) == if c in b then |a| + LastIndexOf(b, c) else LastIndexOf(a, c)
  {
    if c in b {
      LastIndexOfAppendRight(a, b, c);
    } else {
      LastIndexOfAppendLeft(a, b, c);
    }
  }

  /** True when some character of `s` is not a dot. */
  predicate HasNonDot(s: string) {
    exists i :: 0 <= i < |s| && s[i] != ExtSep
  }

  /** A non-empty extension as splitext returns it: a leading dot, then no
      separator and no further dot. */
  predicate IsExtension(e: string) {
    |e| > 0 && e[0] == ExtSep && Sep !in e && ExtSep !in e[1..]
  }

  /** posixpath.basename: everything after the last separator. */
  function Basename(p: string): (b: string)
    ensures Sep !in b
    ensures |b| <= |p| && p[|p| - |b|..] == b
    ensures Sep !in p ==> b == p
  {
    p[LastIndexOf(p, Sep) + 1..]
  }

  /** Appending text without a separator extends the basename by that text. */
  lemma {:induction false} BasenameAppend(a: string, t: string)
    requires Sep !in t
    ensures Basename(a + t) == Basename(a) + t
  {
    LastIndexOfAppend(a, t, Sep);
    assert (a + t)[LastIndexOf(a, Sep) + 1..] == a[LastIndexOf(a, Sep) + 1..] + t;
  }

  /** posixpath.splitext: the last dot of the last component starts the
      extension, unless everything before it in that component is dots
      (so ".bashrc" and ".." have no extension). */
  function SplitExt(p: string): (r: (string, string))
    ensures r.0 + r.1 == p
    ensures r.1 == [] || IsExtension(r.1)
    ensures r.1 != [] ==> HasNonDot(Basename(r.0))
  {
    var sep := LastIndexOf(p, Sep);
    var dot := LastIndexOf(p, ExtSep);
    if dot > sep && HasNonDot(p[sep + 1..dot]) then
      SplitAtLastDot(p);
      (p[..dot], p[dot..])
    else
      (p, [])
  }

  /** When the last dot follows the last separator, the text from that dot
      on is an extension, and the last component before it runs from the
      separator to the dot. */
  lemma {:induction false} SplitAtLastDot(p: string)
    requires LastIndexOf(p, ExtSep) > LastIndexOf(p, Sep)
    ensures var sep := LastIndexOf(p, Sep);
      var dot := LastIndexOf(p, ExtSep);
      p[..dot] + p[dot..] == p &&
      IsExtension(p[dot..]) && Basename(p[..dot]) == p[sep + 1..dot]
  {
    var sep := LastIndexOf(p, Sep);
    var dot := LastIndexOf(p, ExtSep);
    TailAfterLastDot(p, dot);
    assert p[..dot] + p[dot..] == p;
    LastIndexOfAppendLeft(p[..dot], p[dot..], Sep);
    assert p[..dot][sep + 1..] == p[sep + 1..dot];
  }

  /** The text from the last dot on, after the last separator, is an
      extension. */
  lemma {:induction false} TailAfterLastDot(p: string, dot: int)
    requires dot == LastIndexOf(p, ExtSep) > LastIndexOf(p, Sep)
    ensures IsExtension(p[dot..])
  {
    var e := p[dot..];
    forall i | 0 <= i < |e| ensures e[i] != Sep {
      assert e[i] == p[dot + i];
    }
    forall i | 1 <= i < |e| ensures e[i] != ExtSep {
      assert e[i] == p[dot + i];
    }
    assert e[1..] == p[dot + 1..];
  }

  /** A stem whose last component holds a non-dot character, followed by an
      extension, splits back into exactly that stem and extension. */
  lemma {:induction false} SplitExtOfJoin(stem: string, ext: string)
    requires IsExtension(ext)
    requires HasNonDot(Basename(stem))
    ensures SplitExt(stem + ext) == (stem, ext)
  {
    var p := stem + ext;
    LastIndexOfAppend(stem, ext, Sep);
    LastIndexOfAppend(stem, ext, ExtSep);
    LastIndexOfUnique(ext, ExtSep, 0);
    var sep := LastIndexOf(p, Sep);
    assert sep == LastIndexOf(stem, Sep);
    assert LastIndexOf(p, ExtSep) == |stem|;
    assert p[sep + 1..|stem|] == Basename(stem);
    assert p[..|stem|] == stem;
    assert p[|stem|..] == ext;
  }

  /** Appending text with no dot and no separator to a path without an
      extension leaves it without an extension. */
  lemma {:induction false} SplitExtAppendPlain(p: string, t: string)
    requires SplitExt(p).1 == []
    requires Sep !in t && ExtSep !in t
    ensures SplitExt(p + t) == (p + t, [])
  {
    LastIndexOfAppend(p, t, Sep);
    LastIndexOfAppend(p, t, ExtSep);
    var sep := LastIndexOf(p, Sep);
    var dot := LastIndexOf(p, ExtSep);
    if dot > sep {
      assert (p + t)[sep + 1..dot] == p[sep + 1..dot];
    }
  }

  /** True when every character of `s` is a separator. */
  predicate AllSlashes(s: string) {
    forall i :: 0 <= i < |s| ==> s[i] == Sep
  }

  /** Python's str.rstrip('/'): drops every trailing separator. */
  function RStripSlashes(s: string): (r: string)
    ensures |r| <= |s| && s[..|r|] == r
    ensures r == [] || r[|r| - 1] != Sep
    ensures forall i :: |r| <= i < |s| ==> s[i] == Sep
  {
    if |s| > 0 && s[|s| - 1] == Sep then RStripSlashes(s[..|s| - 1]) else s
  }

  /** Two trailing separators after a non-separator are both stripped. */
  lemma {:induction false} RStripTwoSlashes(s: string)
    requires |s| > 0 && s[|s| - 1] != Sep
    ensures RStripSlashes(s + [Sep, Sep]) == s
  {
    assert (s + [Sep, Sep])[..|s| + 1] == s + [Sep];
    assert (s + [Sep])[..|s|] == s;
  }

  /** posixpath.dirname: everything before the last separator, with
      trailing separators removed unless the head is made of separators
      only (the root). */
  function Dirname(p: string): (d: string)
    ensures |d| <= |p| && p[..|d|] == d
    ensures d == [] <==> Sep !in p
    ensures d == [] || d[|d| - 1] != Sep || AllSlashes(d)
  {
    var head := p[..LastIndexOf(p, Sep) + 1];
    if head != [] && !AllSlashes(head) then
      assert head[..|RStripSlashes(head)|] == RStripSlashes(head);
      RStripSlashes(head)
    else
      head
  }

  /** The dirname of a name placed in a directory path ending in a
      separator is that directory path, stripped as dirname strips it. */
  lemma {:induction false} DirnameOfEntry(dir: string, name: string)
    requires |dir| > 0 && dir[|dir| - 1] == Sep && Sep !in name
    ensures Dirname(dir + name) == if AllSlashes(dir) then dir else RStripSlashes(dir)
  {
    LastIndexOfAppendLeft(dir, name, Sep);
    LastIndexOfUnique(dir, Sep, |dir| - 1);
    assert (dir + name)[..|dir|] == dir;
  }

  /** Where the last separator is single and not the root, dirname and
      basename joined by a separator give the path back. */
  lemma {:induction false} DirnameBasenameJoin(p: string)
    requires 1 <= LastIndexOf(p, Sep) && p[LastIndexOf(p, Sep) - 1] != Sep
    ensures Dirname(p) + [Sep] + Basename(p) == p
  {
    var j := LastIndexOf(p, Sep);
    var head := p[..j + 1];
    assert head[j - 1] != Sep;
    assert !AllSlashes(head);
    assert RStripSlashes(head) == p[..j] by {
      assert head[..j] == p[..j];
      assert RStripSlashes(head) == RStripSlashes(p[..j]);
    }
    assert p[..j] + [Sep] + p[j + 1..] == p;
  }

}
