/**
 The string primitives the memo stores rely on, as JavaScript defines them:
 `String.prototype.trim`, an ASCII-only `toLowerCase`, and `includes`.
 */
module Strings {

  /** White space and line terminators, as `String.prototype.trim` strips them. */
  predicate IsJsWhitespace(c: char)
  {
    || c == '\t' || c == '\n' || c == '\U{000B}' || c == '\U{000C}' || c == '\r'
    || c == ' ' || c == '\U{00A0}' || c == '\U{1680}'
    || ('\U{2000}' <= c <= '\U{200A}')
    || c == '\U{2028}' || c == '\U{2029}' || c == '\U{202F}' || c == '\U{205F}'
    || c == '\U{3000}' || c == '\U{FEFF}'
  }

  /** Drops leading white space. */
  function TrimStart(s: string): (r: string)
    ensures |r| <= |s| && r == s[|s| - |r|..]
    ensures forall i :: 0 <= i < |s| - |r| ==> IsJsWhitespace(s[i])
    ensures r == [] || !IsJsWhitespace(r[0])
  {
    if s != [] && IsJsWhitespace(s[0]) then TrimStart(s[1..]) else s
  }

  /** Drops trailing white space. */
  function TrimEnd(s: string): (r: string)
    ensures |r| <= |s| && r == s[..|r|]
    ensures forall i :: |r| <= i < |s| ==> IsJsWhitespace(s[i])
    ensures r == [] || !IsJsWhitespace(r[|r| - 1])
  {
    if s != [] && IsJsWhitespace(s[|s| - 1]) then TrimEnd(s[..|s| - 1]) else s
  }

  /** `s.trim()`: the infix of `s` left once white space is dropped at both ends. */
  function Trim(s: string): (r: string)
    ensures |r| <= |s|
    ensures r == [] || (!IsJsWhitespace(r[0]) && !IsJsWhitespace(r[|r| - 1]))
  {
    TrimEnd(TrimStart(s))
  }

  /** Only white space lies before index `a` and from index `b` on. */
  predicate BlankOutside(s: string, a: int, b: int)
  {
    && 0 <= a <= b <= |s|
    && (forall i :: 0 <= i < a ==> IsJsWhitespace(s[i]))
    && (forall i :: b <= i < |s| ==> IsJsWhitespace(s[i]))
  }

  /** The trimmed string is an infix of the input, and only white space lies
      before and after it. */
  lemma TrimIsInfix(s: string)
    ensures exists a, b :: BlankOutside(s, a, b) && Trim(s) == s[a..b]
  {
    var t := TrimStart(s);
    var r := TrimEnd(t);
    var a := |s| - |t|;
    var b := a + |r|;
    assert BlankOutside(s, a, b) by {
      forall i | b <= i < |s| ensures IsJsWhitespace(s[i]) {
        assert s[i] == t[i - a];
      }
    }
    assert Trim(s) == s[a..b] by {
      assert t == s[a..] && r == t[..|r|];
      assert s[a..][..|r|] == s[a..b];
    }
  }

  /** A string is blank after trimming exactly when every character is white space. */
  lemma TrimIsEmptyIff(s: string)
    ensures Trim(s) == [] <==> forall i :: 0 <= i < |s| ==> IsJsWhitespace(s[i])
  {
    var t := TrimStart(s);
    if Trim(s) == [] {
      assert t == [];
    } else {
      assert t[0] == s[|s| - |t|];
    }
  }

  /** A character that is not white space keeps the trimmed string non-empty. */
  lemma TrimKeepsNonBlank(s: string, i: int)
    requires 0 <= i < |s| && !IsJsWhitespace(s[i])
    ensures Trim(s) != []
  {
    TrimIsEmptyIff(s);
  }

  /** ASCII lower-casing of one character. */
  function LowerChar(c: char): char
  {
    if 'A' <= c <= 'Z' then (c as int + 32) as char else c
  }

  /** `s.toLowerCase()` restricted to ASCII letters. */
  function ToLowerAscii(s: string): (r: string)
    ensures |r| == |s|
    ensures forall i :: 0 <= i < |s| ==> r[i] == LowerChar(s[i])
  {
    seq(|s|, i requires 0 <= i < |s| => LowerChar(s[i]))
  }

  /** Lower-casing is idempotent. */
  lemma ToLowerAsciiIdempotent(s: string)
    ensures ToLowerAscii(ToLowerAscii(s)) == ToLowerAscii(s)
  {
  }

  /** Lower-casing a string that starts with `c` lower-cases `c` and the rest. */
  lemma ToLowerAsciiCons(c: char, s: string)
    ensures ToLowerAscii([c] + s) == [LowerChar(c)] + ToLowerAscii(s)
  {
    assert forall i :: 0 < i <= |s| ==> ([c] + s)[i] == s[i - 1];
  }

  /** Lower-casing commutes with taking a slice. */
  lemma ToLowerAsciiSlice(s: string, i: int, j: int)
    requires 0 <= i <= j <= |s|
    ensures ToLowerAscii(s[i..j]) == ToLowerAscii(s)[i..j]
  {
  }

  /** `sub` occurs in `s` starting at index `i`. */
  predicate OccursAt(s: string, sub: string, i: int)
  {
    0 <= i && i + |sub| <= |s| && s[i..i + |sub|] == sub
  }

  /** `s.includes(sub)`. */
  function Contains(s: string, sub: string): (r: bool)
    ensures r <==> exists i :: OccursAt(s, sub, i)
  {
    if |sub| > |s| then
      assert forall i :: !OccursAt(s, sub, i);
      false
    else if s[..|sub|] == sub then
      assert OccursAt(s, sub, 0);
      true
    else
      var r := Contains(s[1..], sub);
      assert forall i :: OccursAt(s[1..], sub, i) <==> OccursAt(s, sub, i + 1) by {
        forall i ensures OccursAt(s[1..], sub, i) <==> OccursAt(s, sub, i + 1) {
          if 0 <= i && i + |sub| <= |s| - 1 {
            assert s[1..][i..i + |sub|] == s[i + 1..i + 1 + |sub|];
          }
        }
      }
      assert !OccursAt(s, sub, 0);
      assert (exists i :: OccursAt(s, sub, i)) ==> exists i :: OccursAt(s[1..], sub, i) by {
        if exists i :: OccursAt(s, sub, i) {
          var i :| OccursAt(s, sub, i);
          assert OccursAt(s[1..], sub, i - 1);
        }
      }
      r
  }
}
