/** String helpers the client relies on: `String.prototype.trim` and the
    textual order in which ISO-8601 timestamps are compared. */
module Text {

  /** The code points `trim` strips: the WhiteSpace and LineTerminator
      productions of ECMAScript (sections 12.2 and 12.3 of ECMA-262),
      i.e. tab, line feed, vertical tab, form feed, carriage return, the
      space separators of Unicode category Zs, the line and paragraph
      separators, and the byte-order mark. */
  predicate IsSpace(c: char) {
    || c == '\t' || c == '\n' || c == '\U{000B}' || c == '\U{000C}' || c == '\r'
    || c == ' ' || c == '\U{00A0}' || c == '\U{1680}'
    || ('\U{2000}' <= c <= '\U{200A}')
    || c == '\U{2028}' || c == '\U{2029}' || c == '\U{202F}' || c == '\U{205F}'
    || c == '\U{3000}' || c == '\U{FEFF}'
  }

  /** Every character of `s` is white space (so `s.trim()` is falsy). */
  predicate Blank(s: string) {
    forall i :: 0 <= i < |s| ==> IsSpace(s[i])
  }

  /** `s` with its leading white space removed. */
  function TrimStart(s: string): (r: string)
    ensures |r| <= |s| && r == s[|s| - |r|..]
    ensures Blank(s[..|s| - |r|])
    ensures r == [] || !IsSpace(r[0])
  {
    if |s| > 0 && IsSpace(s[0]) then
      var r := TrimStart(s[1..]);
      assert s[..|s| - |r|] == [s[0]] + s[1..][..|s| - 1 - |r|];
      r
    else
      s
  }

  /** `s` with its trailing white space removed. */
  function TrimEnd(s: string): (r: string)
    ensures |r| <= |s| && r == s[..|r|]
    ensures Blank(s[|r|..])
    ensures r == [] || !IsSpace(r[|r| - 1])
  {
    if |s| > 0 && IsSpace(s[|s| - 1]) then
      var r := TrimEnd(s[..|s| - 1]);
      assert s[|r|..] == s[..|s| - 1][|r|..] + [s[|s| - 1]];
      r
    else
      s
  }

  /** `s.trim()`: the slice of `s` between its leading and trailing white
      space; what is cut off on either side is all white space and the slice
      neither starts nor ends with white space. */
  function Trim(s: string): (r: string)
    ensures exists i, j :: 0 <= i <= j <= |s| && r == s[i..j] && Blank(s[..i]) && Blank(s[j..])
    ensures r == [] || (!IsSpace(r[0]) && !IsSpace(r[|r| - 1]))
  {
    var r := TrimEnd(TrimStart(s));
    assert exists i, j :: 0 <= i <= j <= |s| && r == s[i..j] && Blank(s[..i]) && Blank(s[j..]) by {
      var i, j := TrimCuts(s);
    }
    TrimHasNoSpaceAtEnds(s);
    r
  }

  /** Where trimming cuts: everything before `i` and from `j` on is white
      space, and the trimmed text is what lies between. */
  lemma TrimCuts(s: string) returns (i: int, j: int)
    ensures 0 <= i <= j <= |s| && TrimEnd(TrimStart(s)) == s[i..j]
    ensures Blank(s[..i]) && Blank(s[j..])
  {
    var a := TrimStart(s);
    var r := TrimEnd(a);
    i, j := |s| - |a|, |s| - |a| + |r|;
    assert a == s[i..];
    assert r == a[..|r|];
    assert a[..|r|] == s[i..j];
    assert a[|r|..] == s[j..];
  }

  /** A trimmed string neither starts nor ends with white space. */
  lemma TrimHasNoSpaceAtEnds(s: string)
    ensures var r := TrimEnd(TrimStart(s));
      r == [] || (!IsSpace(r[0]) && !IsSpace(r[|r| - 1]))
  {
    var a := TrimStart(s);
    var r := TrimEnd(a);
    assert r != [] ==> r[0] == a[0];
  }

  /** A trimmed string is empty exactly when the input was all white space:
      the test `!text.trim()` the client uses to refuse blank input. */
  lemma TrimEmptyIffBlank(s: string)
    ensures Trim(s) == [] <==> Blank(s)
  {
    var r := Trim(s);
    var i, j := TrimCuts(s);
    if r == [] {
      assert i == j;
      forall k | 0 <= k < |s|
        ensures IsSpace(s[k])
      {
        if k < i {
          assert s[k] == s[..i][k];
        } else {
          assert s[k] == s[j..][k - j];
        }
      }
    } else {
      assert s[i] == r[0];
    }
  }

  /** Trimming twice is trimming once. */
  lemma TrimIdempotent(s: string)
    ensures Trim(Trim(s)) == Trim(s)
  {
    var r := Trim(s);
    if r != [] {
      assert TrimStart(r) == r;
      assert TrimEnd(r) == r;
    }
  }

  /** Code-point lexicographic order: `a` sorts no later than `b`. The model
      compares timestamp text with it. */
  predicate LexLe(a: string, b: string) {
    |a| == 0 || (|b| > 0 && (a[0] < b[0] || (a[0] == b[0] && LexLe(a[1..], b[1..]))))
  }

  /** `a` sorts strictly before `b`. */
  predicate LexLt(a: string, b: string) {
    LexLe(a, b) && a != b
  }

  lemma {:induction false} LexLeRefl(a: string)
    ensures LexLe(a, a)
  {
    if |a| > 0 {
      LexLeRefl(a[1..]);
    }
  }

  lemma {:induction false} LexLeAntisym(a: string, b: string)
    requires LexLe(a, b) && LexLe(b, a)
    ensures a == b
  {
    if |a| > 0 && |b| > 0 {
      LexLeAntisym(a[1..], b[1..]);
      assert a == [a[0]] + a[1..] && b == [b[0]] + b[1..];
    }
  }

  lemma {:induction false} LexLeTrans(a: string, b: string, c: string)
    requires LexLe(a, b) && LexLe(b, c)
    ensures LexLe(a, c)
  {
    if |a| > 0 && |b| > 0 && |c| > 0 && a[0] == b[0] == c[0] {
      LexLeTrans(a[1..], b[1..], c[1..]);
    }
  }

  lemma {:induction false} LexLeTotal(a: string, b: string)
    ensures LexLe(a, b) || LexLe(b, a)
  {
    if |a| > 0 && |b| > 0 && a[0] == b[0] {
      LexLeTotal(a[1..], b[1..]);
    }
  }

  /** Strict order from a non-strict step followed by a strict one. */
  lemma LexLeLtTrans(a: string, b: string, c: string)
    requires LexLe(a, b) && LexLt(b, c)
    ensures LexLt(a, c)
  {
    LexLeTrans(a, b, c);
    if a == c {
      LexLeAntisym(b, c);
    }
  }

  /** `<` is asymmetric. */
  lemma NotLtWhenGreater(a: string, b: string)
    requires LexLt(a, b)
    ensures !LexLt(b, a)
  {
    if LexLe(b, a) {
      LexLeAntisym(a, b);
    }
  }

  /** Two strings that agree up to position `k` and differ there are
      ordered by their characters at `k`. */
  lemma {:induction false} LexLtAtFirstDifference(a: string, b: string, k: nat)
    requires k < |a| && k < |b| && a[..k] == b[..k] && a[k] < b[k]
    ensures LexLt(a, b)
  {
    if k > 0 {
      assert a[0] == a[..k][0] && b[0] == b[..k][0];
      assert a[1..][..k - 1] == a[..k][1..] && b[1..][..k - 1] == b[..k][1..];
      LexLtAtFirstDifference(a[1..], b[1..], k - 1);
    }
  }

  /** Not strictly before means at or after. */
  lemma NotLtIsGe(a: string, b: string)
    requires !LexLt(a, b)
    ensures LexLe(b, a)
  {
    LexLeTotal(a, b);
    if a == b {
      LexLeRefl(a);
    }
  }
}
