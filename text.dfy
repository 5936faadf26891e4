/**
 * Character classes and trimming as JavaScript defines them: `String.prototype.trim`,
 * the regular-expression classes `\s` and `\w`, the assertion `\b` and the `i` flag
 * (all without the `u` flag). A string is a sequence of `char`, one per UTF-16 code unit.
 */
module Text {

  /** The ECMAScript WhiteSpace and LineTerminator code points: what `trim` removes and `\s` matches. */
  predicate IsSpace(c: char) {
    || c == '\t' || c == '\n' || c == '\U{B}' || c == '\U{C}' || c == '\r' || c == ' '
    || c == '\U{A0}' || c == '\U{1680}' || ('\U{2000}' <= c <= '\U{200A}')
    || c == '\U{2028}' || c == '\U{2029}' || c == '\U{202F}' || c == '\U{205F}'
    || c == '\U{3000}' || c == '\U{FEFF}'
  }

  /** `\w` without the `u` flag: ASCII letters, digits and underscore. */
  predicate IsWordChar(c: char) {
    ('a' <= c <= 'z') || ('A' <= c <= 'Z') || ('0' <= c <= '9') || c == '_'
  }

  /** ASCII lower-casing, the case folding the `i` flag applies to ASCII letters. */
  function Lower(c: char): char {
    if 'A' <= c <= 'Z' then (c as int + 32) as char else c
  }

  /** `t` occurs at `p` in `text` up to ASCII case. */
  predicate CaseEqAt(text: string, p: nat, t: string)
    requires p + |t| <= |text|
  {
    forall i :: 0 <= i < |t| ==> Lower(text[p + i]) == Lower(t[i])
  }

  /** No whitespace at either end: what `trim` leaves. */
  predicate Trimmed(s: string) {
    s == [] || (!IsSpace(s[0]) && !IsSpace(s[|s| - 1]))
  }

  predicate AllSpace(s: string) {
    forall i :: 0 <= i < |s| ==> IsSpace(s[i])
  }

  /** Drops the leading whitespace run (`replace(/^\s+/, "")`). */
  function TrimStart(s: string): (r: string)
    ensures |r| <= |s| && r == s[|s| - |r|..]
    ensures r == [] || !IsSpace(r[0])
    ensures AllSpace(s[..|s| - |r|])
    ensures s != [] && IsSpace(s[0]) ==> |r| < |s|
  {
    if s != [] && IsSpace(s[0]) then TrimStart(s[1..]) else s
  }

  /** Drops the trailing whitespace run (`replace(/\s+$/g, "")`). */
  function TrimEnd(s: string): (r: string)
    ensures |r| <= |s| && r == s[..|r|]
    ensures r == [] || !IsSpace(r[|r| - 1])
    ensures AllSpace(s[|r|..])
  {
    if s != [] && IsSpace(s[|s| - 1]) then TrimEnd(s[..|s| - 1]) else s
  }

  /** `String.prototype.trim`. */
  function Trim(s: string): (r: string)
    ensures Trimmed(r)
    ensures |r| <= |s|
    ensures r == [] <==> AllSpace(s)
  {
    var e := TrimEnd(s);
    assert s == e + s[|e|..];
    TrimStart(e)
  }

  lemma {:induction false} TrimStartOfNonSpace(s: string)
    requires s == [] || !IsSpace(s[0])
    ensures TrimStart(s) == s
  {
  }

  lemma {:induction false} TrimEndOfNonSpace(s: string)
    requires s == [] || !IsSpace(s[|s| - 1])
    ensures TrimEnd(s) == s
  {
  }

  /** A string with no whitespace at either end is its own trim. */
  lemma TrimOfTrimmed(s: string)
    requires Trimmed(s)
    ensures Trim(s) == s
  {
    TrimEndOfNonSpace(s);
    TrimStartOfNonSpace(s);
  }

  /** A whitespace character in front of a non-blank string is removed by `trim`. */
  lemma {:induction false} TrimLeadingSpace(c: char, s: string)
    requires IsSpace(c) && !AllSpace(s)
    ensures Trim([c] + s) == Trim(s)
  {
    var e := TrimEnd(s);
    assert e != [];
    assert s == e + s[|e|..];
    assert [c] + s == ([c] + e) + s[|e|..];
    TrimEndSplit([c] + e, s[|e|..]);
    assert TrimEnd([c] + s) == [c] + e;
    assert TrimStart([c] + e) == TrimStart(e) by {
      assert ([c] + e)[1..] == e;
    }
  }

  /** Trailing whitespace is exactly what `TrimEnd` drops. */
  lemma {:induction false} TrimEndSplit(x: string, y: string)
    requires x != [] && !IsSpace(x[|x| - 1]) && AllSpace(y)
    ensures TrimEnd(x + y) == x
    decreases |y|
  {
    if y == [] {
      assert x + y == x;
      TrimEndOfNonSpace(x);
    } else {
      var xy := x + y;
      assert xy[..|xy| - 1] == x + y[..|y| - 1];
      assert IsSpace(xy[|xy| - 1]);
      TrimEndSplit(x, y[..|y| - 1]);
    }
  }

  // ------------------------------------------------------------ filter(Boolean)

  /** `filter(Boolean)` on strings: drops the empty ones. */
  function NonEmpty(xs: seq<string>): (r: seq<string>)
    ensures forall k :: 0 <= k < |r| ==> r[k] != [] && r[k] in xs
  {
    if xs == [] then [] else if xs[0] == [] then NonEmpty(xs[1..]) else [xs[0]] + NonEmpty(xs[1..])
  }

  /** The filter keeps every non-empty entry: on a single entry it keeps it exactly when it is non-empty. */
  lemma NonEmptySingle(x: string)
    ensures NonEmpty([x]) == if x == [] then [] else [x]
  {
    assert [x][1..] == [];
  }

  /** The filter works entry by entry and keeps the order. */
  lemma {:induction false} NonEmptyAppend(a: seq<string>, b: seq<string>)
    ensures NonEmpty(a + b) == NonEmpty(a) + NonEmpty(b)
    decreases |a|
  {
    if a == [] {
      assert a + b == b;
    } else {
      ConsSplit(a, b);
      NonEmptyAppend(a[1..], b);
      if a[0] != [] {
        Assoc([a[0]], NonEmpty(a[1..]), NonEmpty(b));
      }
    }
  }

  lemma {:induction false} NonEmptyOfNonEmpty(xs: seq<string>)
    requires forall k :: 0 <= k < |xs| ==> xs[k] != []
    ensures NonEmpty(xs) == xs
  {
    if xs != [] {
      NonEmptyOfNonEmpty(xs[1..]);
    }
  }

  lemma ConsSplit<T>(a: seq<T>, b: seq<T>)
    requires a != []
    ensures (a + b)[0] == a[0] && (a + b)[1..] == a[1..] + b
  {
  }

  lemma Assoc<T>(x: seq<T>, y: seq<T>, z: seq<T>)
    ensures x + (y + z) == (x + y) + z
  {
  }
}
