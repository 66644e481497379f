/**
 * String.prototype.trim as the handlers use it: it strips the ECMAScript
 * WhiteSpace and LineTerminator code points from both ends, and a string is
 * truthy exactly when it is not empty.
 */
module JsString {

  /** The WhiteSpace and LineTerminator code points of ECMAScript. */
  predicate IsJsWhitespace(c: char) {
    var n := c as int;
    n == 0x09 || n == 0x0A || n == 0x0B || n == 0x0C || n == 0x0D || n == 0x20
    || n == 0xA0 || n == 0x1680 || (0x2000 <= n <= 0x200A)
    || n == 0x2028 || n == 0x2029 || n == 0x202F || n == 0x205F
    || n == 0x3000 || n == 0xFEFF
  }

  /** Every character is whitespace (the empty string included). */
  predicate IsBlank(s: string) {
    forall i :: 0 <= i < |s| ==> IsJsWhitespace(s[i])
  }

  /** A blank stretch after a whitespace character is a longer blank stretch. */
  lemma BlankCons(s: string, m: nat)
    requires 0 < m <= |s| && IsJsWhitespace(s[0]) && IsBlank(s[1..][..m - 1])
    ensures IsBlank(s[..m])
  {
    forall i | 0 <= i < m ensures IsJsWhitespace(s[..m][i]) {
      if 0 < i {
        assert s[..m][i] == s[1..][..m - 1][i - 1];
      }
    }
  }

  /** A blank stretch before a final whitespace character is a longer blank stretch. */
  lemma BlankSnoc(s: string, m: nat)
    requires m < |s| && IsJsWhitespace(s[|s| - 1]) && IsBlank(s[..|s| - 1][m..])
    ensures IsBlank(s[m..])
  {
    forall i | 0 <= i < |s| - m ensures IsJsWhitespace(s[m..][i]) {
      if m + i < |s| - 1 {
        assert s[m..][i] == s[..|s| - 1][m..][i];
      }
    }
  }

  /** `s` with its leading whitespace removed: the longest suffix that does not start with whitespace. */
  function TrimStart(s: string): (r: string)
    ensures |r| <= |s| && r == s[|s| - |r|..]
    ensures IsBlank(s[..|s| - |r|])
    ensures r == [] || !IsJsWhitespace(r[0])
  {
    if s != [] && IsJsWhitespace(s[0]) then
      var r := TrimStart(s[1..]);
      var m := |s| - |r|;
      assert s[1..][m - 1..] == s[m..];
      BlankCons(s, m);
      r
    else s
  }

  /** `s` with its trailing whitespace removed: the longest prefix that does not end in whitespace. */
  function TrimEnd(s: string): (r: string)
    ensures |r| <= |s| && r == s[..|r|]
    ensures IsBlank(s[|r|..])
    ensures r == [] || !IsJsWhitespace(r[|r| - 1])
  {
    if s != [] && IsJsWhitespace(s[|s| - 1]) then
      var r := TrimEnd(s[..|s| - 1]);
      assert s[..|s| - 1][..|r|] == s[..|r|];
      BlankSnoc(s, |r|);
      r
    else s
  }

  function Trim(s: string): string {
    TrimEnd(TrimStart(s))
  }

  /** The trimmed string sits inside `s` between a blank prefix and a blank suffix. */
  lemma TrimIsInfix(s: string)
    ensures exists a, b :: 0 <= a <= b <= |s| && Trim(s) == s[a..b] && IsBlank(s[..a]) && IsBlank(s[b..])
  {
    var t := TrimStart(s);
    var r := TrimEnd(t);
    var a := |s| - |t|;
    var b := a + |r|;
    assert r == s[a..b] by {
      assert t == s[a..];
      assert r == t[..|r|];
    }
    assert IsBlank(s[b..]) by {
      assert s[b..] == t[|r|..];
    }
    assert IsBlank(s[..a]);
    assert Trim(s) == r;
  }

  /** The trimmed string has no whitespace at either end. */
  lemma TrimHasNoOuterWhitespace(s: string)
    ensures Trim(s) == [] || (!IsJsWhitespace(Trim(s)[0]) && !IsJsWhitespace(Trim(s)[|Trim(s)| - 1]))
  {
    var t := TrimStart(s);
    var r := TrimEnd(t);
    if r != [] {
      assert r[0] == t[0];
    }
  }

  /** A title is rejected exactly when it is blank: trimming leaves nothing iff every character is whitespace. */
  lemma TrimEmptyIffBlank(s: string)
    ensures Trim(s) == [] <==> IsBlank(s)
  {
    var t := TrimStart(s);
    assert s == s[..|s| - |t|] + t;
    if Trim(s) == [] {
      assert IsBlank(t[0..]);
    }
    if IsBlank(s) {
      assert IsBlank(t);
    }
  }

  /** Trimming twice is trimming once. */
  lemma TrimIdempotent(s: string)
    ensures Trim(Trim(s)) == Trim(s)
  {
    var r := Trim(s);
    if r != [] {
      assert TrimStart(r) == r;
      assert TrimEnd(r) == r;
    }
  }
}
