/** The JavaScript string built-ins the chat client relies on (`trim`,
    `startsWith`, `includes`, `toLowerCase`), over `seq<char>`. */
module JsText {

  /** The code points `String.prototype.trim` removes: ECMAScript's
      WhiteSpace and LineTerminator productions. */
  predicate IsWhitespace(c: char) {
    c == '\t' || c == '\n' || c == '\U{B}' || c == '\U{C}' || c == '\r' || c == ' '
    || c == '\U{A0}' || c == '\U{1680}' || ('\U{2000}' <= c <= '\U{200A}')
    || c == '\U{2028}' || c == '\U{2029}' || c == '\U{202F}' || c == '\U{205F}'
    || c == '\U{3000}' || c == '\U{FEFF}'
  }

  predicate AllWhitespace(s: string) {
    forall i :: 0 <= i < |s| ==> IsWhitespace(s[i])
  }

  /** Drops leading whitespace. */
  function TrimStart(s: string): string {
    if s != [] && IsWhitespace(s[0]) then TrimStart(s[1..]) else s
  }

  /** Drops trailing whitespace. */
  function TrimEnd(s: string): string {
    if s != [] && IsWhitespace(s[|s| - 1]) then TrimEnd(s[..|s| - 1]) else s
  }

  /** `TrimStart` keeps the suffix that starts at the first non-whitespace
      character. */
  lemma {:induction false} TrimStartSpec(s: string)
    ensures var r := TrimStart(s);
            |r| <= |s| && r == s[|s| - |r|..]
            && (forall i :: 0 <= i < |s| - |r| ==> IsWhitespace(s[i]))
            && (r != [] ==> !IsWhitespace(r[0]))
    decreases |s|
  {
    if s != [] && IsWhitespace(s[0]) {
      TrimStartSpec(s[1..]);
    }
  }

  /** `TrimEnd` keeps the prefix that ends at the last non-whitespace
      character. */
  lemma {:induction false} TrimEndSpec(s: string)
    ensures var r := TrimEnd(s);
            |r| <= |s| && r == s[..|r|]
            && (forall i :: |r| <= i < |s| ==> IsWhitespace(s[i]))
            && (r != [] ==> !IsWhitespace(r[|r| - 1]))
    decreases |s|
  {
    if s != [] && IsWhitespace(s[|s| - 1]) {
      TrimEndSpec(s[..|s| - 1]);
    }
  }

  /** `String.prototype.trim`. */
  function Trim(s: string): string {
    TrimEnd(TrimStart(s))
  }

  /** A string trims to nothing exactly when it is all whitespace. */
  lemma TrimEmptyIff(s: string)
    ensures Trim(s) == [] <==> AllWhitespace(s)
  {
    var t := TrimStart(s);
    TrimStartSpec(s);
    TrimEndSpec(t);
    if Trim(s) == [] {
      assert t[0..] == t;
      assert s == s[..|s| - |t|] + t;
    }
  }

  /** Trimming a string padded with whitespace on both sides gives back its
      core, provided the core neither starts nor ends with whitespace. */
  lemma TrimPadded(a: string, x: string, b: string)
    requires AllWhitespace(a) && AllWhitespace(b)
    requires x != [] && !IsWhitespace(x[0]) && !IsWhitespace(x[|x| - 1])
    ensures Trim(a + x + b) == x
  {
    var s := a + x + b;
    assert forall i :: 0 <= i < |a| ==> s[i] == a[i];
    assert s[|a|] == x[0];
    var t := TrimStart(s);
    TrimStartSpec(s);
    assert t == x + b;
    TrimEndSpec(t);
    assert forall i :: |x| <= i < |t| ==> t[i] == b[i - |x|];
    assert t[|x| - 1] == x[|x| - 1];
    assert TrimEnd(t) == x;
  }

  /** Every string is its trim padded with whitespace on both sides. */
  lemma TrimDecompose(s: string) returns (a: string, b: string)
    ensures AllWhitespace(a) && AllWhitespace(b)
    ensures s == a + Trim(s) + b
  {
    var t := TrimStart(s);
    a := TrimStartRest(s);
    b := TrimEndRest(t);
    assert s == a + t && t == Trim(s) + b;
    assert a + (Trim(s) + b) == a + Trim(s) + b;
  }

  /** The whitespace `TrimStart` drops from `s`. */
  lemma TrimStartRest(s: string) returns (a: string)
    ensures AllWhitespace(a) && s == a + TrimStart(s)
  {
    var t := TrimStart(s);
    TrimStartSpec(s);
    var k := |s| - |t|;
    a := s[..k];
    assert t == s[k..];
    assert s == a + t;
    assert AllWhitespace(a) by {
      forall i | 0 <= i < |a| ensures IsWhitespace(a[i]) {
        assert a[i] == s[i];
      }
    }
  }

  /** The whitespace `TrimEnd` drops from `t`. */
  lemma TrimEndRest(t: string) returns (b: string)
    ensures AllWhitespace(b) && t == TrimEnd(t) + b
  {
    var e := TrimEnd(t);
    TrimEndSpec(t);
    b := t[|e|..];
    assert e == t[..|e|];
    assert t == e + b;
    assert AllWhitespace(b) by {
      forall i | 0 <= i < |b| ensures IsWhitespace(b[i]) {
        assert b[i] == t[|e| + i];
      }
    }
  }

  /** `String.prototype.startsWith`. */
  predicate StartsWith(s: string, prefix: string) {
    |prefix| <= |s| && s[..|prefix|] == prefix
  }

  /** `p` occurs in `s` starting at index `i`. */
  predicate OccursAt(s: string, p: string, i: int) {
    0 <= i && i + |p| <= |s| && s[i..i + |p|] == p
  }

  lemma OccursAfterMismatch(s: string, p: string)
    requires |p| <= |s| && s[..|p|] != p
    ensures (exists i :: OccursAt(s, p, i)) <==> (exists i :: OccursAt(s[1..], p, i))
  {
    if exists i :: OccursAt(s, p, i) {
      var i :| OccursAt(s, p, i);
      assert i != 0;
      assert s[1..][i - 1..i - 1 + |p|] == s[i..i + |p|];
      assert OccursAt(s[1..], p, i - 1);
    }
    if exists i :: OccursAt(s[1..], p, i) {
      var i :| OccursAt(s[1..], p, i);
      assert s[1..][i..i + |p|] == s[i + 1..i + 1 + |p|];
      assert OccursAt(s, p, i + 1);
    }
  }

  /** `String.prototype.includes`: a left-to-right search for `p` in `s`. */
  function Includes(s: string, p: string): (b: bool)
    ensures b <==> exists i :: OccursAt(s, p, i)
    decreases |s|
  {
    if |s| < |p| then
      false
    else if s[..|p|] == p then
      assert OccursAt(s, p, 0);
      true
    else
      OccursAfterMismatch(s, p);
      Includes(s[1..], p)
  }

  lemma IncludesMiddle(a: string, p: string, b: string)
    ensures Includes(a + p + b, p)
  {
    assert (a + p + b)[|a|..|a| + |p|] == p;
    assert OccursAt(a + p + b, p, |a|);
  }

  /** The lower case of one character as `toLowerCase` gives it, for every
      character whose lower case contains an ASCII letter: A-Z, U+0130 (which
      becomes 'i' followed by U+0307) and the Kelvin sign U+212A (which
      becomes 'k'). Every other character is kept as it is. */
  function LowerChar(c: char): string {
    if 'A' <= c <= 'Z' then [(c as int + 32) as char]
    else if c == '\U{130}' then ['i', '\U{307}']
    else if c == '\U{212A}' then ['k']
    else [c]
  }

  /** `String.prototype.toLowerCase`, character by character. */
  function ToLower(s: string): string {
    if s == [] then [] else LowerChar(s[0]) + ToLower(s[1..])
  }

  lemma {:induction false} ToLowerAppend(a: string, b: string)
    ensures ToLower(a + b) == ToLower(a) + ToLower(b)
    decreases |a|
  {
    if a != [] {
      assert (a + b)[0] == a[0] && (a + b)[1..] == a[1..] + b;
      ToLowerAppend(a[1..], b);
      calc {
        ToLower(a + b);
        LowerChar(a[0]) + ToLower(a[1..] + b);
        LowerChar(a[0]) + (ToLower(a[1..]) + ToLower(b));
      }
    } else {
      assert a + b == b;
    }
  }

  /** A string of lower-case ASCII letters is its own lower case. */
  lemma {:induction false} ToLowerKeepsLower(s: string)
    requires forall i :: 0 <= i < |s| ==> 'a' <= s[i] <= 'z'
    ensures ToLower(s) == s
    decreases |s|
  {
    if s != [] {
      assert forall i :: 0 <= i < |s[1..]| ==> s[1..][i] == s[i + 1];
      ToLowerKeepsLower(s[1..]);
      assert LowerChar(s[0]) == [s[0]];
      assert s == [s[0]] + s[1..];
    }
  }

  /** Lower-casing twice is lower-casing once. */
  lemma {:induction false} ToLowerIdempotent(s: string)
    ensures ToLower(ToLower(s)) == ToLower(s)
    decreases |s|
  {
    if s != [] {
      var head := LowerChar(s[0]);
      ToLowerAppend(head, ToLower(s[1..]));
      ToLowerIdempotent(s[1..]);
      if |head| == 2 {
        assert head[1..][1..] == [];
      }
      assert ToLower(head) == head;
    }
  }
}
