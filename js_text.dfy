/** The parts of JavaScript string handling the plugin relies on:
    `String.prototype.trim` and the truthiness of the string it returns. */
module JsText {

  /** The characters `trim` removes: ECMAScript WhiteSpace (tab, vertical tab,
      form feed, the byte order mark and every space separator of category Zs)
      and LineTerminator (line feed, carriage return, U+2028, U+2029). */
  predicate IsTrimSpace(c: char)
  {
    c == '\t' || c == '\U{000B}' || c == '\U{000C}' || c == ' ' || c == '\U{00A0}'
    || c == '\U{FEFF}' || c == '\U{1680}' || ('\U{2000}' <= c <= '\U{200A}')
    || c == '\U{202F}' || c == '\U{205F}' || c == '\U{3000}'
    || c == '\n' || c == '\r' || c == '\U{2028}' || c == '\U{2029}'
  }

  /** Every character of `s` is one that `trim` removes (vacuously so for ""). */
  predicate AllSpace(s: string)
  {
    forall i :: 0 <= i < |s| ==> IsTrimSpace(s[i])
  }

  /** Drops the leading run of trim-space characters. */
  function TrimStart(s: string): (r: string)
    ensures |r| <= |s| && r == s[|s| - |r|..]
    ensures AllSpace(s[..|s| - |r|])
    ensures r == [] || !IsTrimSpace(r[0])
  {
    if s != [] && IsTrimSpace(s[0]) then
      var r := TrimStart(s[1..]);
      assert s[..|s| - |r|] == [s[0]] + s[1..][..|s| - 1 - |r|];
      r
    else
      s
  }

  /** Drops the trailing run of trim-space characters. */
  function TrimEnd(s: string): (r: string)
    ensures |r| <= |s| && r == s[..|r|]
    ensures AllSpace(s[|r|..])
    ensures r == [] || !IsTrimSpace(r[|r| - 1])
  {
    if s != [] && IsTrimSpace(s[|s| - 1]) then
      var r := TrimEnd(s[..|s| - 1]);
      assert s[|r|..] == s[..|s| - 1][|r|..] + [s[|s| - 1]];
      r
    else
      s
  }

  /** `s.trim()`: `s` with both outer runs of space dropped; what is kept
      neither starts nor ends with space. */
  function Trim(s: string): (r: string)
    ensures |r| <= |s|
    ensures r == [] || (!IsTrimSpace(r[0]) && !IsTrimSpace(r[|r| - 1]))
  {
    TrimEnd(TrimStart(s))
  }

  /** What `trim` keeps is a contiguous part of `s`, and all it drops on
      either side is space. */
  lemma TrimDropsOnlySpace(s: string)
    ensures exists i :: 0 <= i <= i + |Trim(s)| <= |s| && Trim(s) == s[i..i + |Trim(s)|]
                        && AllSpace(s[..i]) && AllSpace(s[i + |Trim(s)|..])
  {
    var t := TrimStart(s);
    var r := TrimEnd(t);
    var i := |s| - |t|;
    assert Trim(s) == r;
    assert r == s[i..i + |r|] by { assert t == s[i..]; }
    assert AllSpace(s[i + |r|..]) by { assert s[i + |r|..] == t[|r|..]; }
    assert 0 <= i <= i + |r| <= |s| && r == s[i..i + |r|] && AllSpace(s[..i]) && AllSpace(s[i + |r|..]);
  }

  /** A string is falsy after trimming exactly when it consists of space only. */
  lemma {:induction false} TrimEmptyIff(s: string)
    ensures Trim(s) == [] <==> AllSpace(s)
  {
    var t := TrimStart(s);
    if Trim(s) == [] {
      assert t[0..] == t;
    }
  }

  /** Trimming twice trims nothing more. */
  lemma TrimIdempotent(s: string)
    ensures Trim(Trim(s)) == Trim(s)
  {
    var r := Trim(s);
    assert TrimStart(r) == r;
    assert TrimEnd(r) == r;
  }

  /** A string with no space at either end is its own trim. */
  lemma TrimUnspaced(s: string)
    requires s == [] || (!IsTrimSpace(s[0]) && !IsTrimSpace(s[|s| - 1]))
    ensures Trim(s) == s
  {
  }

  lemma {:induction false} TrimStartSkipsSpace(s: string, x: string)
    requires AllSpace(s)
    ensures TrimStart(s + x) == TrimStart(x)
  {
    if s != [] {
      assert (s + x)[1..] == s[1..] + x;
      TrimStartSkipsSpace(s[1..], x);
    } else {
      assert s + x == x;
    }
  }

  lemma {:induction false} TrimEndSkipsSpace(x: string, u: string)
    requires AllSpace(u)
    ensures TrimEnd(x + u) == TrimEnd(x)
  {
    if u != [] {
      assert (x + u)[..|x + u| - 1] == x + u[..|u| - 1];
      TrimEndSkipsSpace(x, u[..|u| - 1]);
    } else {
      assert x + u == x;
    }
  }

  lemma {:induction false} TrimStartKeepsTail(t: string, u: string)
    requires !AllSpace(t)
    ensures TrimStart(t + u) == TrimStart(t) + u
  {
    if IsTrimSpace(t[0]) {
      assert (t + u)[1..] == t[1..] + u;
      TrimStartKeepsTail(t[1..], u);
    }
  }

  /** Space and line breaks around a string make no difference to `trim`. */
  lemma TrimSkipsOuterSpace(s: string, t: string, u: string)
    requires AllSpace(s) && AllSpace(u)
    ensures Trim(s + t + u) == Trim(t)
  {
    assert s + t + u == s + (t + u);
    TrimStartSkipsSpace(s, t + u);
    if AllSpace(t) {
      TrimEmptyIff(t);
      assert AllSpace(t + u);
      TrimEmptyIff(t + u);
      TrimEmptyIff(s + t + u);
    } else {
      TrimStartKeepsTail(t, u);
      TrimEndSkipsSpace(TrimStart(t), u);
    }
  }
}
