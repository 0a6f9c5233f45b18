/**
 * The string operations of the JavaScript runtime that the site's scripts rely
 * on: `String.prototype.trim`, `toLowerCase`, `includes`, and the `\s` class of
 * regular expressions. Strings are sequences of characters.
 */
module JsString {

  /** The characters matched by `\s` and removed by `trim`: the WhiteSpace and
      LineTerminator productions of ECMAScript (TAB, VT, FF, SP, NBSP, ZWNBSP,
      the space separators of Unicode, LF, CR, LS, PS). */
  predicate IsWhitespace(c: char) {
    || c == ' ' || c == '\t' || c == '\n' || c == '\r'
    || c == '\U{000B}' || c == '\U{000C}' || c == '\U{00A0}' || c == '\U{1680}'
    || ('\U{2000}' <= c <= '\U{200A}')
    || c == '\U{2028}' || c == '\U{2029}' || c == '\U{202F}' || c == '\U{205F}'
    || c == '\U{3000}' || c == '\U{FEFF}'
  }

  predicate NoWhitespace(s: string) {
    forall k :: 0 <= k < |s| ==> !IsWhitespace(s[k])
  }

  predicate AllWhitespace(s: string) {
    forall k :: 0 <= k < |s| ==> IsWhitespace(s[k])
  }

  /** Removes the leading white space: what is left is a suffix of `s`, the part
      dropped is white space, and what is left does not start with white space. */
  function TrimStart(s: string): (r: string)
    ensures |r| <= |s| && r == s[|s| - |r|..]
    ensures forall k :: 0 <= k < |s| - |r| ==> IsWhitespace(s[k])
    ensures r == [] || !IsWhitespace(r[0])
  {
    if s != [] && IsWhitespace(s[0]) then
      var r := TrimStart(s[1..]);
      assert forall k :: 1 <= k < |s| ==> s[k] == s[1..][k - 1];
      r
    else s
  }

  /** Removes the trailing white space: what is left is a prefix of `s`, the part
      dropped is white space, and what is left does not end with white space. */
  function TrimEnd(s: string): (r: string)
    ensures |r| <= |s| && r == s[..|r|]
    ensures forall k :: |r| <= k < |s| ==> IsWhitespace(s[k])
    ensures r == [] || !IsWhitespace(r[|r| - 1])
  {
    if s != [] && IsWhitespace(s[|s| - 1]) then
      TrimEnd(s[..|s| - 1])
    else s
  }

  /** `String.prototype.trim`: the result is empty exactly when `s` is all
      white space, and otherwise starts and ends with other characters. */
  function Trim(s: string): (r: string)
    ensures |r| <= |s|
    ensures r == [] <==> AllWhitespace(s)
    ensures r == [] || (!IsWhitespace(r[0]) && !IsWhitespace(r[|r| - 1]))
  {
    var t := TrimStart(s);
    var r := TrimEnd(t);
    assert r == [] ==> AllWhitespace(s) by {
      if r == [] {
        assert t == [];
      }
    }
    assert AllWhitespace(s) ==> r == [] by {
      if r != [] {
        assert r[0] == t[0] == s[|s| - |t|];
      }
    }
    r
  }

  /** The trimmed value is the slice of `s` between its leading and its
      trailing white space. */
  lemma TrimIsInnerSlice(s: string)
    ensures exists i :: 0 <= i <= |s| - |Trim(s)| && Trim(s) == s[i..i + |Trim(s)|]
                        && AllWhitespace(s[..i]) && AllWhitespace(s[i + |Trim(s)|..])
  {
    var i, r := TrimmedStart(s);
    assert r == s[i..i + |r|];
  }

  /** Where the trimmed value starts in `s`. */
  lemma TrimmedStart(s: string) returns (i: nat, r: string)
    ensures r == Trim(s)
    ensures i + |r| <= |s| && r == s[i..i + |r|]
    ensures AllWhitespace(s[..i]) && AllWhitespace(s[i + |r|..])
  {
    var t := TrimStart(s);
    r := TrimEnd(t);
    i := |s| - |t|;
    InnerSlice(s, t, r);
  }

  /** A prefix `r` of a suffix `t` of `s`, with white space around it. */
  lemma InnerSlice(s: string, t: string, r: string)
    requires |t| <= |s| && t == s[|s| - |t|..]
    requires forall k :: 0 <= k < |s| - |t| ==> IsWhitespace(s[k])
    requires |r| <= |t| && r == t[..|r|]
    requires forall k :: |r| <= k < |t| ==> IsWhitespace(t[k])
    ensures r == s[|s| - |t|..|s| - |t| + |r|]
    ensures AllWhitespace(s[..|s| - |t|]) && AllWhitespace(s[|s| - |t| + |r|..])
  {
    var i := |s| - |t|;
    assert forall k :: i + |r| <= k < |s| ==> s[k] == t[k - i];
    WhitespaceSlices(s, i, i + |r|);
  }

  /** Pointwise white space before `i` and from `j` on makes both slices white space. */
  lemma WhitespaceSlices(s: string, i: nat, j: nat)
    requires i <= j <= |s|
    requires forall k :: 0 <= k < i ==> IsWhitespace(s[k])
    requires forall k :: j <= k < |s| ==> IsWhitespace(s[k])
    ensures AllWhitespace(s[..i]) && AllWhitespace(s[j..])
  {
    assert forall k :: 0 <= k < |s| - j ==> s[j..][k] == s[j + k];
  }

  /** Trimming twice trims no more than trimming once. */
  lemma TrimIdempotent(s: string)
    ensures Trim(Trim(s)) == Trim(s)
  {
    var r := Trim(s);
    TrimOfTrimmed(r);
  }

  /** A string without leading or trailing white space is its own trim. */
  lemma TrimOfTrimmed(s: string)
    requires s == [] || (!IsWhitespace(s[0]) && !IsWhitespace(s[|s| - 1]))
    ensures Trim(s) == s
  {
    if s != [] {
      assert TrimStart(s) == s;
      assert TrimEnd(s) == s;
    }
  }

  /** A leading white-space character makes no difference to the trimmed value. */
  lemma TrimSkipsLeadingWhitespace(s: string)
    requires s != [] && IsWhitespace(s[0])
    ensures Trim(s) == Trim(s[1..])
  {
  }

  /** The lower-case mapping of `toLowerCase` for ASCII and Latin-1 letters
      (U+00C0 to U+00DE except the multiplication sign U+00D7). */
  function LowerChar(c: char): char {
    if 'A' <= c <= 'Z' || ('\U{00C0}' <= c <= '\U{00DE}' && c != '\U{00D7}')
    then (c as int + 32) as char
    else c
  }

  /** `String.prototype.toLowerCase`, character by character. */
  function ToLower(s: string): (r: string)
    ensures |r| == |s|
    ensures forall k :: 0 <= k < |s| ==> r[k] == LowerChar(s[k])
  {
    if s == [] then [] else [LowerChar(s[0])] + ToLower(s[1..])
  }

  /** Lower-casing is idempotent: a lower-cased string has no upper-case letter left. */
  lemma ToLowerIdempotent(s: string)
    ensures ToLower(ToLower(s)) == ToLower(s)
  {
    assert forall k :: 0 <= k < |s| ==> LowerChar(LowerChar(s[k])) == LowerChar(s[k]);
  }

  /** `sub` occurs in `s` starting at position `i`. */
  predicate OccursAt(s: string, sub: string, i: int) {
    0 <= i && i + |sub| <= |s| && s[i..i + |sub|] == sub
  }

  /** `sub` occurs somewhere in `s`. */
  ghost predicate Occurs(s: string, sub: string) {
    exists i :: OccursAt(s, sub, i)
  }

  /** `String.prototype.includes`: tries the start positions from the left. */
  function Contains(s: string, sub: string): bool
    decreases |s|
  {
    if |sub| > |s| then false
    else if s[..|sub|] == sub then true
    else Contains(s[1..], sub)
  }

  /** An occurrence in the tail of `s` is an occurrence in `s` one position later. */
  lemma OccursAtTail(s: string, sub: string, j: nat)
    requires s != []
    ensures OccursAt(s[1..], sub, j) <==> OccursAt(s, sub, j + 1)
  {
    if j + |sub| <= |s| - 1 {
      assert s[1..][j..j + |sub|] == s[j + 1..j + 1 + |sub|];
    }
  }

  /** `Contains` holds exactly when `sub` occurs in `s` at some position. */
  lemma {:induction false} ContainsIffOccurs(s: string, sub: string)
    ensures Contains(s, sub) <==> Occurs(s, sub)
    decreases |s|
  {
    if |sub| > |s| {
    } else if s[..|sub|] == sub {
      assert OccursAt(s, sub, 0);
    } else {
      ContainsIffOccurs(s[1..], sub);
      if Occurs(s, sub) {
        var i :| OccursAt(s, sub, i);
        assert i != 0;
        OccursAtTail(s, sub, i - 1);
        assert OccursAt(s[1..], sub, i - 1);
      }
      if Occurs(s[1..], sub) {
        var j :| OccursAt(s[1..], sub, j);
        OccursAtTail(s, sub, j);
        assert OccursAt(s, sub, j + 1);
      }
    }
  }

  /** Every string contains the empty string. */
  lemma ContainsEmpty(s: string)
    ensures Contains(s, "")
  {
  }
}
