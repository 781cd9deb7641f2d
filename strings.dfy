/**
 * The operations of Python's `str` and `os.path` that the generator relies on:
 * `find`, `replace`, `endswith` and `os.path.basename`.
 */
module Strings {

  /** `sub` occurs in `s` starting at index `i`. */
  predicate OccursAt(s: string, sub: string, i: nat)
  {
    i + |sub| <= |s| && s[i..i + |sub|] == sub
  }

  /** Dropping the first character of `s` shifts every occurrence one place to the left. */
  lemma OccursAtTail(s: string, sub: string, i: nat)
    requires |s| > 0
    ensures OccursAt(s, sub, i + 1) == OccursAt(s[1..], sub, i)
  {
    if i + 1 + |sub| <= |s| {
      assert s[1..][i..i + |sub|] == s[i + 1..i + 1 + |sub|];
    }
  }

  /**
   * `s.find(sub)`: an index at which `sub` occurs in `s`, or -1; `FindLeftmost`
   * shows the index is the lowest one and -1 means `sub` occurs nowhere.
   */
  function Find(s: string, sub: string): (r: int)
    ensures -1 <= r <= |s|
    ensures r >= 0 ==> r + |sub| <= |s| && OccursAt(s, sub, r)
  {
    if |s| < |sub| then -1
    else if s[..|sub|] == sub then 0
    else
      var k := Find(s[1..], sub);
      assert k >= 0 ==> OccursAt(s, sub, k + 1) by {
        if k >= 0 { OccursAtTail(s, sub, k); }
      }
      if k < 0 then -1 else k + 1
  }

  /** `find` returns the lowest index at which `sub` occurs, and -1 only when it occurs nowhere. */
  lemma {:induction false} FindLeftmost(s: string, sub: string)
    ensures var r := Find(s, sub);
      (r >= 0 ==> forall i: nat :: i < r ==> !OccursAt(s, sub, i)) &&
      (r < 0 ==> forall i: nat :: !OccursAt(s, sub, i))
  {
    if |s| >= |sub| && s[..|sub|] != sub {
      FindLeftmost(s[1..], sub);
      assert !OccursAt(s, sub, 0) by { assert s[0..|sub|] == s[..|sub|]; }
      forall i: nat | 0 < i ensures OccursAt(s, sub, i) == OccursAt(s[1..], sub, i - 1) {
        OccursAtTail(s, sub, i - 1);
      }
    }
  }

  /** `sub` is a substring of `s`. */
  ghost predicate Occurs(s: string, sub: string)
  {
    exists i: nat :: OccursAt(s, sub, i)
  }

  /** `s.find(sub) >= 0` holds exactly when `sub` is a substring of `s`. */
  lemma FindIffOccurs(s: string, sub: string)
    ensures Find(s, sub) >= 0 <==> Occurs(s, sub)
  {
    var r := Find(s, sub);
    FindLeftmost(s, sub);
    if r >= 0 {
      assert OccursAt(s, sub, r);
    }
  }

  /** `s.endswith(suffix)`. */
  predicate EndsWith(s: string, suffix: string)
    ensures EndsWith(s, suffix) <==> exists p :: p + suffix == s
  {
    assert |suffix| <= |s| ==> s[..|s| - |suffix|] + s[|s| - |suffix|..] == s;
    |suffix| <= |s| && s[|s| - |suffix|..] == suffix
  }

  /**
   * `s.replace(pat, rep)`: every occurrence of `pat`, found left to right and
   * without overlap, is replaced by `rep`; the replacement text is not scanned
   * again. The generator only ever replaces non-empty patterns.
   */
  function Replace(s: string, pat: string, rep: string): (r: string)
    requires |pat| > 0
    ensures |rep| <= |pat| ==> |r| <= |s|
    ensures |rep| == |pat| ==> |r| == |s|
    decreases |s|
  {
    if |s| < |pat| then s
    else if s[..|pat|] == pat then rep + Replace(s[|pat|..], pat, rep)
    else [s[0]] + Replace(s[1..], pat, rep)
  }

  /** Every character `replace` outputs comes from the string or from the replacement. */
  lemma {:induction false} ReplaceChars(s: string, pat: string, rep: string)
    requires |pat| > 0
    ensures forall c :: c in Replace(s, pat, rep) ==> c in s || c in rep
    decreases |s|
  {
    if |s| >= |pat| {
      if s[..|pat|] == pat {
        ReplaceChars(s[|pat|..], pat, rep);
        forall c | c in s[|pat|..] ensures c in s {
          var i :| 0 <= i < |s[|pat|..]| && s[|pat|..][i] == c;
          assert s[|pat| + i] == c;
        }
      } else {
        ReplaceChars(s[1..], pat, rep);
        forall c | c in s[1..] ensures c in s {
          var i :| 0 <= i < |s[1..]| && s[1..][i] == c;
          assert s[1 + i] == c;
        }
      }
    }
  }

  /** Replacing a single character by text without it leaves no trace of that character. */
  lemma {:induction false} ReplaceRemovesChar(s: string, pat: string, rep: string)
    requires |pat| == 1 && pat[0] !in rep
    ensures pat[0] !in Replace(s, pat, rep)
    decreases |s|
  {
    if |s| >= |pat| {
      if s[..|pat|] == pat {
        ReplaceRemovesChar(s[|pat|..], pat, rep);
      } else {
        ReplaceRemovesChar(s[1..], pat, rep);
        assert s[0] != pat[0] by { assert s[..1] == [s[0]]; }
      }
    }
  }

  /** Where `pat` does not occur, `replace` leaves the string as it is. */
  lemma {:induction false} ReplaceWithoutOccurrence(s: string, pat: string, rep: string)
    requires |pat| > 0
    requires Find(s, pat) < 0
    ensures Replace(s, pat, rep) == s
    decreases |s|
  {
    FindLeftmost(s, pat);
    if |s| >= |pat| {
      assert !OccursAt(s, pat, 0);
      assert s[..|pat|] != pat;
      forall i: nat ensures !OccursAt(s[1..], pat, i) {
        OccursAtTail(s, pat, i);
        assert !OccursAt(s, pat, i + 1);
      }
      if |s[1..]| >= |pat| {
        ReplaceWithoutOccurrence(s[1..], pat, rep);
      }
      assert s == [s[0]] + s[1..];
    }
  }

  /**
   * `replace` works leftmost first: the text before the first occurrence of
   * `pat` is kept, that occurrence becomes `rep`, and the rest is replaced in
   * turn from just past the occurrence, so occurrences never overlap.
   */
  lemma {:induction false} ReplaceAtFind(s: string, pat: string, rep: string, k: nat)
    requires |pat| > 0 && k == Find(s, pat)
    ensures Replace(s, pat, rep) == s[..k] + rep + Replace(s[k + |pat|..], pat, rep)
    decreases |s|
  {
    if k == 0 {
      ReplaceAtStart(s, pat, rep);
    } else {
      FindStep(s, pat);
      ReplaceAtFind(s[1..], pat, rep, k - 1);
      ReplacePastFirst(s, pat, rep, k);
    }
  }

  /** An occurrence at index 0 is replaced first. */
  lemma ReplaceAtStart(s: string, pat: string, rep: string)
    requires |pat| > 0 && Find(s, pat) == 0
    ensures Replace(s, pat, rep) == s[..0] + rep + Replace(s[0 + |pat|..], pat, rep)
  {
    assert OccursAt(s, pat, 0);
    assert s[..|pat|] == s[0..|pat|];
    assert s[..0] + rep == rep;
  }

  /** The inductive step: a first occurrence at `k > 0` is the tail's first occurrence at `k - 1`. */
  lemma ReplacePastFirst(s: string, pat: string, rep: string, k: nat)
    requires |pat| > 0 && 0 < k && k + |pat| <= |s| && s[..|pat|] != pat
    requires Replace(s[1..], pat, rep) == s[1..][..k - 1] + rep + Replace(s[1..][k - 1 + |pat|..], pat, rep)
    ensures Replace(s, pat, rep) == s[..k] + rep + Replace(s[k + |pat|..], pat, rep)
  {
    var rest := Replace(s[k + |pat|..], pat, rep);
    var t := s[1..];
    var front := t[..k - 1];
    assert t[k - 1 + |pat|..] == s[k + |pat|..];
    assert Replace(t, pat, rep) == front + rep + rest;
    assert [s[0]] + front == s[..k];
    calc {
      Replace(s, pat, rep);
      [s[0]] + Replace(t, pat, rep);
      [s[0]] + (front + rep + rest);
      { SeqAssoc([s[0]], front, rep, rest); }
      ([s[0]] + front) + rep + rest;
    }
  }

  /** Regrouping a four-part concatenation. */
  lemma SeqAssoc(a: string, b: string, c: string, d: string)
    ensures a + (b + c + d) == (a + b) + c + d
  {
  }

  /** Past a non-match at index 0, `find` is one more than `find` on the tail. */
  lemma FindStep(s: string, pat: string)
    requires Find(s, pat) > 0
    ensures Find(s, pat) + |pat| <= |s| && s[..|pat|] != pat
    ensures Find(s[1..], pat) == Find(s, pat) - 1
  {
    FindLeftmost(s, pat);
    assert !OccursAt(s, pat, 0);
    assert s[..|pat|] != pat by { assert s[..|pat|] == s[0..|pat|]; }
  }

  /**
   * `os.path.basename(p)` on a POSIX path: the text after the last `/`, or all of
   * `p` when it holds no `/`.
   */
  function Basename(p: string): (r: string)
    ensures '/' !in r
    ensures |r| <= |p| && r == p[|p| - |r|..]
    ensures |r| < |p| ==> p[|p| - |r| - 1] == '/'
  {
    if p == [] then []
    else if p[|p| - 1] == '/' then []
    else Basename(p[..|p| - 1]) + [p[|p| - 1]]
  }

  /** A path without a `/` is its own base name. */
  lemma BasenameWithoutSlash(p: string)
    requires '/' !in p
    ensures Basename(p) == p
  {
    assert p[0..] == p;
  }

  /** `os.path.basename(os.path.join(dir, name))` is `name` when `name` has no `/`. */
  lemma BasenameOfJoin(dir: string, name: string)
    requires '/' !in name
    ensures Basename(dir + "/" + name) == name
  {
    var p := dir + "/" + name;
    var r := Basename(p);
    assert p[|p| - |name| - 1] == '/';
    assert p[|p| - |name|..] == name;
  }
}
