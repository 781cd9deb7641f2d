/** `update_include_dirs`: the `-I` directories with path separators normalised. */
module IncludeDirs {
  import opened Strings

  /**
   * One directory: every `\` becomes `/`, then each `//` (found left to right,
   * without overlap) becomes `/`. Environment variables are not expanded.
   */
  function Normalize(d: string): (r: string)
    ensures '\\' !in r
    ensures |r| <= |d|
  {
    var once := Replace(d, "\\", "/");
    ReplaceRemovesChar(d, "\\", "/");
    ReplaceChars(once, "//", "/");
    Replace(once, "//", "/")
  }

  /** `update_include_dirs(dirs)`: the normalised directories, in the same order. */
  method UpdateIncludeDirs(dirs: seq<string>) returns (ret: seq<string>)
    ensures |ret| == |dirs|
    ensures forall i :: 0 <= i < |dirs| ==> ret[i] == Normalize(dirs[i])
  {
    ret := [];
    for i := 0 to |dirs|
      invariant |ret| == i
      invariant forall k :: 0 <= k < i ==> ret[k] == Normalize(dirs[k])
    {
      ret := ret + [Normalize(dirs[i])];
    }
  }

  /** A one-character string occurs exactly where that character stands. */
  lemma OccursAtChar(s: string, c: char, i: nat)
    ensures OccursAt(s, [c], i) ==> i < |s| && s[i] == c
  {
    if i < |s| {
      assert s[i..i + 1][0] == s[i];
    }
  }

  /** A single character absent from `s` does not occur in it. */
  lemma CharNotFound(s: string, c: char)
    requires c !in s
    ensures Find(s, [c]) < 0
  {
    forall i: nat ensures !OccursAt(s, [c], i) {
      OccursAtChar(s, c, i);
    }
    FindIffOccurs(s, [c]);
  }

  /** A directory already free of `\` and `//` is left as it is. */
  lemma NormalizeKeepsCleanPath(d: string)
    requires '\\' !in d && !Occurs(d, "//")
    ensures Normalize(d) == d
  {
    CharNotFound(d, '\\');
    assert "\\" == ['\\'];
    ReplaceWithoutOccurrence(d, "\\", "/");
    FindIffOccurs(d, "//");
    ReplaceWithoutOccurrence(d, "//", "/");
  }

  /** Backslash separators become slashes. */
  lemma BackslashExample()
    ensures Normalize("a\\b") == "a/b"
  {
    assert Replace("b", "\\", "/") == "b";
    assert Replace("\\b", "\\", "/") == "/b";
    assert Replace("a\\b", "\\", "/") == "a/b";
    assert Replace("b", "//", "/") == "b";
    assert "/b"[..2] == "/b" != "//" && "/b"[1..] == "b";
    assert Replace("/b", "//", "/") == "/b";
    assert "a/b"[..2] == "a/" != "//" && "a/b"[1..] == "/b";
    assert Replace("a/b", "//", "/") == "a/b";
  }

  /** One pass only: a run of three slashes becomes two, not one. */
  lemma SinglePassExample()
    ensures Normalize("///") == "//"
  {
    NormalizeKeepsBackslashFree("///");
    assert Replace("/", "//", "/") == "/";
    assert "///"[..2] == "//" && "///"[2..] == "/";
  }

  /** On a path without `\`, only the `//` pass changes anything. */
  lemma NormalizeKeepsBackslashFree(d: string)
    requires '\\' !in d
    ensures Normalize(d) == Replace(d, "//", "/")
  {
    CharNotFound(d, '\\');
    assert "\\" == ['\\'];
    ReplaceWithoutOccurrence(d, "\\", "/");
  }
}
