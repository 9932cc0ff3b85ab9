/** The two pieces of CPython's str semantics the core relies on:
    str.strip() with no argument, and the ordering of str values
    (code point by code point) that sorted() and list.sort() use. */
module Text {

  /** The characters for which str.isspace() holds. */
  predicate IsSpace(c: char)
  {
    || ('\t' <= c <= '\r')
    || ('\U{1C}' <= c <= ' ')
    || c == '\U{85}' || c == '\U{A0}' || c == '\U{1680}'
    || ('\U{2000}' <= c <= '\U{200A}')
    || c == '\U{2028}' || c == '\U{2029}' || c == '\U{202F}' || c == '\U{205F}'
    || c == '\U{3000}'
  }

  /** Drops the leading whitespace. */
  function StripLeft(s: string): (r: string)
    ensures |r| <= |s| && r == s[|s| - |r|..]
    ensures forall i :: 0 <= i < |s| - |r| ==> IsSpace(s[i])
    ensures r == [] || !IsSpace(r[0])
  {
    if s != [] && IsSpace(s[0]) then StripLeft(s[1..]) else s
  }

  /** Drops the trailing whitespace. */
  function StripRight(s: string): (r: string)
    ensures |r| <= |s| && r == s[..|r|]
    ensures forall i :: |r| <= i < |s| ==> IsSpace(s[i])
    ensures r == [] || !IsSpace(r[|r| - 1])
  {
    if s != [] && IsSpace(s[|s| - 1]) then StripRight(s[..|s| - 1]) else s
  }

  /** str.strip(): the longest slice of s with no whitespace at either end,
      obtained by cutting only whitespace. */
  function Strip(s: string): (r: string)
    ensures exists a, b :: (0 <= a <= b <= |s| && r == s[a..b]
                            && (forall i :: 0 <= i < a ==> IsSpace(s[i]))
                            && (forall i :: b <= i < |s| ==> IsSpace(s[i])))
    ensures r == [] || (!IsSpace(r[0]) && !IsSpace(r[|r| - 1]))
  {
    var l := StripLeft(s);
    var r := StripRight(l);
    assert r == s[|s| - |l|..|s| - |l| + |r|];
    r
  }

  lemma StripIdempotent(s: string)
    ensures Strip(Strip(s)) == Strip(s)
  {
    var t := Strip(s);
    assert StripLeft(t) == t;
    assert StripRight(t) == t;
  }

  /** Every character of s is whitespace. */
  predicate AllSpace(s: string)
  {
    forall i :: 0 <= i < |s| ==> IsSpace(s[i])
  }

  /** Leading whitespace is skipped whatever follows it. */
  lemma {:induction false} StripLeftSkipsSpaces(pre: string, s: string)
    requires AllSpace(pre)
    ensures StripLeft(pre + s) == StripLeft(s)
  {
    if pre != [] {
      assert (pre + s)[0] == pre[0] && IsSpace(pre[0]);
      assert (pre + s)[1..] == pre[1..] + s;
      assert AllSpace(pre[1..]) by {
        forall i | 0 <= i < |pre| - 1 ensures IsSpace(pre[1..][i]) { assert pre[1..][i] == pre[i + 1]; }
      }
      StripLeftSkipsSpaces(pre[1..], s);
      assert StripLeft(pre + s) == StripLeft(pre[1..] + s);
    } else {
      assert pre + s == s;
    }
  }

  /** Trailing whitespace is skipped whatever precedes it. */
  lemma {:induction false} StripRightSkipsSpaces(s: string, post: string)
    requires AllSpace(post)
    ensures StripRight(s + post) == StripRight(s)
  {
    if post != [] {
      var shorter := post[..|post| - 1];
      assert (s + post)[|s + post| - 1] == post[|post| - 1] && IsSpace(post[|post| - 1]);
      assert (s + post)[..|s + post| - 1] == s + shorter;
      assert AllSpace(shorter) by {
        forall i | 0 <= i < |shorter| ensures IsSpace(shorter[i]) { assert shorter[i] == post[i]; }
      }
      StripRightSkipsSpaces(s, shorter);
      assert StripRight(s + post) == StripRight(s + shorter);
    } else {
      assert s + post == s;
    }
  }

  /** Appending whitespace leaves the left cut of s where it was, unless
      s is all whitespace: then the appended part goes as well. */
  lemma {:induction false} StripLeftAppendSpaces(s: string, post: string)
    requires AllSpace(post)
    ensures StripLeft(s + post) == if StripLeft(s) == [] then [] else StripLeft(s) + post
  {
    if s == [] {
      assert s + post == post + [];
      StripLeftSkipsSpaces(post, []);
    } else if IsSpace(s[0]) {
      assert (s + post)[1..] == s[1..] + post;
      StripLeftAppendSpaces(s[1..], post);
    } else {
      assert (s + post)[0] == s[0];
    }
  }

  /** With whitespace on both sides, the left strip drops all of the
      leading part and s's own leading whitespace, keeping the rest. */
  lemma StripLeftPadded(s: string, pre: string, post: string)
    requires AllSpace(pre) && AllSpace(post)
    ensures StripLeft(pre + s + post) == if StripLeft(s) == [] then [] else StripLeft(s) + post
  {
    assert pre + s + post == pre + (s + post);
    StripLeftSkipsSpaces(pre, s + post);
    StripLeftAppendSpaces(s, post);
  }

  /** Whitespace around a text does not change what strip() keeps. */
  lemma StripPadded(s: string, pre: string, post: string)
    requires AllSpace(pre) && AllSpace(post)
    ensures Strip(pre + s + post) == Strip(s)
  {
    StripLeftPadded(s, pre, post);
    StripRightSkipsSpaces(StripLeft(s), post);
  }

  /** Python's `a < b` on str: lexicographic by code point, a proper
      prefix being smaller. */
  function Less(a: string, b: string): (r: bool)
    ensures r ==> a != b
    ensures a != [] && b != [] && a[0] != b[0] ==> (r <==> a[0] < b[0])
    ensures |a| < |b| && a == b[..|a|] ==> r
  {
    if a == [] then b != []
    else if b == [] then false
    else
      assert |a| < |b| && a == b[..|a|] ==> a[0] == b[0] && a[1..] == b[1..][..|a| - 1];
      a[0] < b[0] || (a[0] == b[0] && Less(a[1..], b[1..]))
  }

  lemma {:induction false} LessIrreflexive(a: string)
    ensures !Less(a, a)
  {
    if a != [] {
      LessIrreflexive(a[1..]);
    }
  }

  lemma {:induction false} LessTransitive(a: string, b: string, c: string)
    requires Less(a, b) && Less(b, c)
    ensures Less(a, c)
  {
    if a != [] && a[0] == b[0] && b[0] == c[0] {
      LessTransitive(a[1..], b[1..], c[1..]);
    }
  }

  lemma {:induction false} LessTotal(a: string, b: string)
    ensures Less(a, b) || a == b || Less(b, a)
  {
    if a != [] && b != [] && a[0] == b[0] {
      LessTotal(a[1..], b[1..]);
      assert a == [a[0]] + a[1..] && b == [b[0]] + b[1..];
    }
  }
}
