/**
  * `replaceFileType` of debanner.c: the output file names are the input name
  * with everything from its last '.' onward replaced by a new type such as
  * ".cbmd". The search stops before index 0, so a '.' there is ignored; when
  * no '.' is found at index 1 or beyond, the type is appended to the whole name.
  *
  * A C string is modelled by its characters up to (not including) the
  * terminating NUL; `CharAt` gives back the NUL at index `|s|`, which the
  * source's search reads first.
  */
module FileType {

  /** The character at index `i` of a C string whose contents are `s`: index `|s|` holds the terminator. */
  function CharAt(s: seq<char>, i: nat): (c: char)
    requires i <= |s|
  {
    if i < |s| then s[i] else '\0'
  }

  /** No '.' among `name[lo..hi]`. */
  predicate NoDot(name: seq<char>, lo: nat, hi: nat)
    requires hi <= |name|
  {
    forall k :: lo <= k < hi ==> name[k] != '.'
  }

  /**
    * The greatest index `d` with `1 <= d < i` and `name[d] == '.'`, or 0 when
    * there is none; a '.' at index 0 never counts.
    */
  function LastDotBelow(name: seq<char>, i: nat): (d: nat)
    requires i <= |name|
    ensures d < i || d == 0
    ensures d == 0 ==> NoDot(name, 1, i)
    ensures d != 0 ==> name[d] == '.' && NoDot(name, d + 1, i)
    decreases i
  {
    if i <= 1 then 0 else if name[i - 1] == '.' then i - 1 else LastDotBelow(name, i - 1)
  }

  /** The length of the part of `name` that is kept: up to its last '.' at an index of 1 or more, else all of it. */
  function RootLength(name: seq<char>): (n: nat)
    ensures n <= |name|
    ensures n == |name| <==> NoDot(name, 1, |name|)
    ensures n < |name| ==> 1 <= n && name[n] == '.' && NoDot(name, n + 1, |name|)
  {
    var d := LastDotBelow(name, |name|);
    if d == 0 then |name| else d
  }

  /**
    * The name `replaceFileType(name, typ)` returns: a prefix of `name` followed
    * by `typ`, where the prefix is the whole name when no '.' sits at index 1
    * or beyond, and otherwise stops just before the last such '.'.
    */
  function Replaced(name: seq<char>, typ: seq<char>): (r: seq<char>)
    ensures |typ| <= |r| <= |name| + |typ|
    ensures r[|r| - |typ|..] == typ
    ensures r[..|r| - |typ|] == name[..|r| - |typ|]
    ensures |r| - |typ| == |name| <==> NoDot(name, 1, |name|)
    ensures |r| - |typ| < |name| ==> |r| - |typ| >= 1 && name[|r| - |typ|] == '.' && NoDot(name, |r| - |typ| + 1, |name|)
  {
    name[..RootLength(name)] + typ
  }

  /**
    * The search loop and the copy of `replaceFileType`: scan from the
    * terminator down to index 1 for a '.', keep the name before it (or all of
    * it when none was found) and append `typ`. `rootlen` starts at 0, the
    * value the check after the loop expects when no '.' was found.
    */
  method ReplaceFileType(filename: seq<char>, typ: seq<char>) returns (r: seq<char>)
    ensures r == Replaced(filename, typ)
    ensures |r| == RootLength(filename) + |typ|
    ensures r[..RootLength(filename)] == filename[..RootLength(filename)]
    ensures r[RootLength(filename)..] == typ
  {
    var len := |filename|;
    var rootlen := 0;
    var i := len;
    while i > 0
      invariant 0 <= i <= len
      invariant rootlen == 0
      invariant NoDot(filename, i + 1, len)
      decreases i
    {
      if CharAt(filename, i) == '.' {
        rootlen := i;
        break;
      }
      i := i - 1;
    }
    if rootlen == 0 {
      assert LastDotBelow(filename, len) == 0;
      rootlen := len;
    } else {
      assert LastDotBelow(filename, len) == rootlen;
    }
    r := filename[..rootlen] + typ;
  }

  /** With a '.' at an index of 1 or more, the result is the name before the last such '.', then the type. */
  lemma ReplacedWithDot(name: seq<char>, typ: seq<char>, d: nat)
    requires 1 <= d < |name| && name[d] == '.' && NoDot(name, d + 1, |name|)
    ensures Replaced(name, typ) == name[..d] + typ
  {
    assert LastDotBelow(name, |name|) == d;
  }

  /** Without a '.' at any index of 1 or more, the type is appended to the whole name. */
  lemma ReplacedWithoutDot(name: seq<char>, typ: seq<char>)
    requires NoDot(name, 1, |name|)
    ensures Replaced(name, typ) == name + typ
  {
    assert name[..|name|] == name;
  }

  /**
    * Replacing the type of a name twice is replacing it once with the second
    * type, when the first type is a '.' followed by no other '.' and the name
    * is not empty (an empty name would put the new '.' at index 0, where the
    * search never looks).
    */
  lemma {:induction false} ReplaceTwice(name: seq<char>, t1: seq<char>, t2: seq<char>)
    requires |name| >= 1
    requires |t1| >= 1 && t1[0] == '.' && NoDot(t1, 1, |t1|)
    ensures Replaced(Replaced(name, t1), t2) == Replaced(name, t2)
  {
    var n := RootLength(name);
    var once := Replaced(name, t1);
    assert n >= 1 by {
      if LastDotBelow(name, |name|) == 0 {
      }
    }
    assert once[n] == '.';
    forall k | n + 1 <= k < |once|
      ensures once[k] != '.'
    {
      assert once[k] == t1[k - n];
    }
    ReplacedWithDot(once, t2, n);
    assert once[..n] == name[..n];
  }

  /** "banner.bin" becomes "banner.cbmd". */
  lemma ExampleWithType()
    ensures Replaced("banner.bin", ".cbmd") == "banner.cbmd"
  {
    ReplacedWithDot("banner.bin", ".cbmd", 6);
  }

  /** "banner" becomes "banner.bcwav". */
  lemma ExampleWithoutType()
    ensures Replaced("banner", ".bcwav") == "banner.bcwav"
  {
    ReplacedWithoutDot("banner", ".bcwav");
  }

  /** A '.' at index 0 only is not a type separator: ".bnr" becomes ".bnr.cbmd". */
  lemma ExampleLeadingDot()
    ensures Replaced(".bnr", ".cbmd") == ".bnr.cbmd"
  {
    ReplacedWithoutDot(".bnr", ".cbmd");
  }
}
