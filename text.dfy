/**
 * Character-level text operations shared by the Python backend and the
 * JavaScript frontend: ASCII case mapping (str.lower / toLowerCase,
 * upper-casing of one character), trimming by a whitespace predicate
 * (str.strip / String.prototype.trim) and prefix tests (startsWith).
 */
module Text {

  /** Lower-case mapping of one character: only 'A'..'Z' change. */
  function LowerChar(c: char): (r: char)
    ensures 'A' <= c <= 'Z' ==> 'a' <= r <= 'z'
    ensures !('A' <= c <= 'Z') ==> r == c
    ensures !('A' <= r <= 'Z')
  {
    if 'A' <= c <= 'Z' then (c as int + 32) as char else c
  }

  /** Upper-case mapping of one character: only 'a'..'z' change. */
  function UpperChar(c: char): (r: char)
    ensures 'a' <= c <= 'z' ==> 'A' <= r <= 'Z'
    ensures !('a' <= c <= 'z') ==> r == c
    ensures !('a' <= r <= 'z')
  {
    if 'a' <= c <= 'z' then (c as int - 32) as char else c
  }

  /** Character by character lower-casing of a string. */
  function Lower(s: string): (r: string)
    ensures |r| == |s|
    ensures forall i :: 0 <= i < |s| ==> r[i] == LowerChar(s[i])
  {
    if s == [] then [] else [LowerChar(s[0])] + Lower(s[1..])
  }

  predicate IsLower(s: string) {
    Lower(s) == s
  }

  lemma LowerIsLower(s: string)
    ensures IsLower(Lower(s))
  {
  }

  lemma LowerAppend(a: string, b: string)
    ensures Lower(a + b) == Lower(a) + Lower(b)
  {
  }

  /** Upper-casing a lower-case character can be undone by lower-casing it. */
  lemma UpperLowerInverse(c: char)
    requires LowerChar(c) == c
    ensures LowerChar(UpperChar(c)) == c
  {
  }

  predicate StartsWith(s: string, prefix: string) {
    |prefix| <= |s| && s[..|prefix|] == prefix
  }

  /** Drops the longest prefix whose characters all satisfy `p`. */
  function DropWhile(s: string, p: char -> bool): (r: string)
    ensures |r| <= |s| && r == s[|s| - |r|..]
    ensures forall i :: 0 <= i < |s| - |r| ==> p(s[i])
    ensures r != [] ==> !p(r[0])
  {
    if s != [] && p(s[0]) then DropWhile(s[1..], p) else s
  }

  /** Drops the longest suffix whose characters all satisfy `p`. */
  function DropWhileEnd(s: string, p: char -> bool): (r: string)
    ensures |r| <= |s| && r == s[..|r|]
    ensures forall i :: |r| <= i < |s| ==> p(s[i])
    ensures r != [] ==> !p(r[|r| - 1])
  {
    if s != [] && p(s[|s| - 1]) then DropWhileEnd(s[..|s| - 1], p) else s
  }

  /** Removes characters satisfying `p` from both ends. */
  function Trim(s: string, p: char -> bool): string {
    DropWhileEnd(DropWhile(s, p), p)
  }

  /** Trimming keeps a contiguous slice, and drops only characters satisfying `p`. */
  lemma TrimSlice(s: string, p: char -> bool) returns (lo: nat, hi: nat)
    ensures lo <= hi <= |s| && Trim(s, p) == s[lo..hi]
    ensures forall i :: 0 <= i < lo ==> p(s[i])
    ensures forall i :: hi <= i < |s| ==> p(s[i])
    ensures Trim(s, p) != [] ==> !p(Trim(s, p)[0]) && !p(Trim(s, p)[|Trim(s, p)| - 1])
  {
    var d := DropWhile(s, p);
    lo := |s| - |d|;
    hi := lo + |Trim(s, p)|;
    assert Trim(s, p) == d[..|Trim(s, p)|];
    forall i | hi <= i < |s| ensures p(s[i]) {
      assert s[i] == d[i - lo];
    }
    var t := Trim(s, p);
    if t != [] {
      assert t[0] == d[0];
    }
  }

  /** The trimmed string is empty exactly when every character satisfies `p`. */
  lemma TrimEmpty(s: string, p: char -> bool)
    ensures Trim(s, p) == [] <==> forall i :: 0 <= i < |s| ==> p(s[i])
  {
    var lo, hi := TrimSlice(s, p);
    if Trim(s, p) == [] {
      forall i | 0 <= i < |s| ensures p(s[i]) {
        if lo <= i < hi { assert false; }
      }
    } else {
      assert !p(s[lo]);
    }
  }

  /** Trimming twice changes nothing. */
  lemma TrimIdempotent(s: string, p: char -> bool)
    ensures Trim(Trim(s, p), p) == Trim(s, p)
  {
    var t := Trim(s, p);
    var lo, hi := TrimSlice(s, p);
    if t != [] {
      assert DropWhile(t, p) == t;
      assert DropWhileEnd(t, p) == t;
    }
  }

  /** A string with no trimmable character at either end is its own trim. */
  lemma TrimNoop(s: string, p: char -> bool)
    requires s != [] ==> !p(s[0]) && !p(s[|s| - 1])
    ensures Trim(s, p) == s
  {
    assert DropWhile(s, p) == s;
  }

  /** Padding with trimmable characters on both sides does not change the trim. */
  lemma TrimPadded(pre: string, s: string, post: string, p: char -> bool)
    requires forall i :: 0 <= i < |pre| ==> p(pre[i])
    requires forall i :: 0 <= i < |post| ==> p(post[i])
    ensures Trim(pre + s + post, p) == Trim(s, p)
  {
    DropWhilePrefix(pre, s + post, p);
    assert pre + s + post == pre + (s + post);
    DropWhileAppend(s, post, p);
    if DropWhile(s, p) == [] {
      DropWhilePrefix(post, [], p);
      assert post + [] == post;
    } else {
      DropWhileEndSuffix(DropWhile(s, p), post, p);
    }
  }

  lemma {:induction false} DropWhilePrefix(pre: string, s: string, p: char -> bool)
    requires forall i :: 0 <= i < |pre| ==> p(pre[i])
    ensures DropWhile(pre + s, p) == DropWhile(s, p)
  {
    if pre != [] {
      assert (pre + s)[0] == pre[0];
      assert (pre + s)[1..] == pre[1..] + s;
      DropWhilePrefix(pre[1..], s, p);
    } else {
      assert pre + s == s;
    }
  }

  lemma {:induction false} DropWhileEndSuffix(s: string, post: string, p: char -> bool)
    requires forall i :: 0 <= i < |post| ==> p(post[i])
    ensures DropWhileEnd(s + post, p) == DropWhileEnd(s, p)
  {
    if post != [] {
      var w := s + post;
      assert w[..|w| - 1] == s + post[..|post| - 1];
      DropWhileEndSuffix(s, post[..|post| - 1], p);
    } else {
      assert s + post == s;
    }
  }

  lemma {:induction false} DropWhileAppend(s: string, t: string, p: char -> bool)
    ensures DropWhile(s + t, p) == if DropWhile(s, p) == [] then DropWhile(t, p) else DropWhile(s, p) + t
  {
    if s == [] {
      assert s + t == t;
    } else {
      assert (s + t)[0] == s[0];
      if p(s[0]) {
        assert (s + t)[1..] == s[1..] + t;
        DropWhileAppend(s[1..], t, p);
        assert DropWhile(s + t, p) == DropWhile(s[1..] + t, p);
        assert DropWhile(s, p) == DropWhile(s[1..], p);
      } else {
        assert DropWhile(s + t, p) == s + t;
        assert DropWhile(s, p) == s;
      }
    }
  }
}
