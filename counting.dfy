/**
 * Counting: the plain-text projection of a chapter's rich-text delta
 * (`plainTextFromDelta`) and the word and character counts shown for it
 * (`countWordsChars`).
 */
module Counting {
  import opened Wrappers
  import opened Text

  /** The `insert` of a delta operation: a string, or anything else (an embed object, a number). */
  datatype Insert = StringInsert(s: string) | OtherInsert

  /** An entry of `ops`: `null`, or an object with an `insert`. */
  datatype Op = NullOp | OpObject(insert: Insert)

  /** A delta whose `ops` list may be missing. */
  datatype Delta = Delta(ops: Option<seq<Op>>)

  function InsertText(i: Insert): string {
    match i
    case StringInsert(s) => s
    case OtherInsert => ""
  }

  /** `ops.map(op => ...).join("")`; None when an entry is `null` (reading `op.insert` throws). */
  function JoinInserts(ops: seq<Op>): (r: Option<string>)
    ensures r.None? <==> NullOp in ops
  {
    if ops == [] then Some("")
    else
      match ops[0]
      case NullOp => None
      case OpObject(i) =>
        match JoinInserts(ops[1..])
        case None => None
        case Some(rest) => Some(InsertText(i) + rest)
  }

  /** `plainTextFromDelta`: "" for a missing delta, missing `ops`, or when the mapping throws. */
  function PlainTextFromDelta(d: Option<Delta>): (r: string)
    ensures d.None? || d.value.ops.None? ==> r == ""
  {
    match d
    case None => ""
    case Some(Delta(None)) => ""
    case Some(Delta(Some(ops))) =>
      match JoinInserts(ops)
      case None => ""
      case Some(t) => t
  }

  /** The projection distributes over concatenation of operation lists. */
  lemma {:induction false} JoinInsertsAppend(a: seq<Op>, b: seq<Op>)
    requires NullOp !in a && NullOp !in b
    ensures JoinInserts(a + b) == Some(JoinInserts(a).value + JoinInserts(b).value)
  {
    if a == [] {
      assert a + b == b;
      assert JoinInserts(b).Some?;
      assert "" + JoinInserts(b).value == JoinInserts(b).value;
    } else {
      assert (a + b)[0] == a[0] && (a + b)[1..] == a[1..] + b;
      assert a == [a[0]] + a[1..];
      assert NullOp !in a[1..];
      JoinInsertsAppend(a[1..], b);
      var t := InsertText(a[0].insert);
      assert JoinInserts(a) == Some(t + JoinInserts(a[1..]).value);
      assert JoinInserts(a + b) == Some(t + JoinInserts(a[1..] + b).value);
      assert t + (JoinInserts(a[1..]).value + JoinInserts(b).value) == (t + JoinInserts(a[1..]).value) + JoinInserts(b).value;
    }
  }

  /** For deltas without null entries: the text of `a ++ b` is the text of `a` followed by that of `b`. */
  lemma PlainTextAppend(a: seq<Op>, b: seq<Op>)
    requires NullOp !in a && NullOp !in b
    ensures PlainTextFromDelta(Some(Delta(Some(a + b))))
         == PlainTextFromDelta(Some(Delta(Some(a)))) + PlainTextFromDelta(Some(Delta(Some(b))))
  {
    JoinInsertsAppend(a, b);
  }

  /** A delta holding one string insert projects to exactly that string. */
  lemma PlainTextOfString(s: string)
    ensures PlainTextFromDelta(Some(Delta(Some([OpObject(StringInsert(s))])))) == s
  {
    var ops := [OpObject(StringInsert(s))];
    assert ops[1..] == [];
    assert JoinInserts(ops[1..]) == Some([]);
    assert s + [] == s;
    assert JoinInserts(ops) == Some(s);
  }

  /** A non-string insert contributes nothing. */
  lemma PlainTextSkipsEmbeds(a: seq<Op>, b: seq<Op>)
    requires NullOp !in a && NullOp !in b
    ensures PlainTextFromDelta(Some(Delta(Some(a + [OpObject(OtherInsert)] + b))))
         == PlainTextFromDelta(Some(Delta(Some(a + b))))
  {
    JoinInsertsAppend(a, [OpObject(OtherInsert)]);
    JoinInsertsAppend(a + [OpObject(OtherInsert)], b);
    JoinInsertsAppend(a, b);
  }

  // ------------------------------------------------------------------ counting

  datatype Counts = Counts(words: nat, chars: nat)

  /** `split(/\s+/)`: pieces between maximal whitespace runs; a leading or trailing run yields an empty piece. */
  function SplitOnWhitespace(s: string): (r: seq<string>)
    ensures |r| >= 1
    ensures r[0] == [] <==> (s == [] || IsSpace(s[0]))
    decreases |s|
  {
    if s == [] then [""]
    else if IsSpace(s[0]) then [""] + SplitOnWhitespace(TrimStart(s))
    else
      var r := SplitOnWhitespace(s[1..]);
      [[s[0]] + r[0]] + r[1..]
  }

  /** `countWordsChars`. */
  function CountWordsChars(text: string): Counts {
    var t := TrimEnd(text);
    var words := if Trim(t) != [] then |NonEmpty(SplitOnWhitespace(Trim(t)))| else 0;
    Counts(words, |t|)
  }

  /** Reference count of words: positions holding a non-space character right after a space or the start. */
  function WordStarts(s: string): nat {
    StartsAfter(s, true)
  }

  function StartsAfter(s: string, afterSpace: bool): (r: nat)
    ensures r <= |s|
  {
    if s == [] then 0
    else (if afterSpace && !IsSpace(s[0]) then 1 else 0) + StartsAfter(s[1..], IsSpace(s[0]))
  }

  lemma {:induction false} StartsAfterLeadingSpace(s: string)
    ensures StartsAfter(TrimStart(s), true) == StartsAfter(s, true)
    decreases |s|
  {
    if s != [] && IsSpace(s[0]) {
      StartsAfterLeadingSpace(s[1..]);
    }
  }

  lemma {:induction false} StartsAfterAllSpace(s: string, b: bool)
    requires AllSpace(s)
    ensures StartsAfter(s, b) == 0
  {
    if s != [] {
      StartsAfterAllSpace(s[1..], true);
    }
  }

  lemma {:induction false} StartsAfterAppend(x: string, y: string, b: bool)
    ensures StartsAfter(x + y, b) == StartsAfter(x, b) + StartsAfter(y, if x == [] then b else IsSpace(x[|x| - 1]))
  {
    if x == [] {
      assert x + y == y;
    } else {
      assert (x + y)[1..] == x[1..] + y;
      StartsAfterAppend(x[1..], y, IsSpace(x[0]));
    }
  }

  lemma {:induction false} StartsAfterEndsInWord(s: string)
    requires s != [] && !IsSpace(s[|s| - 1])
    ensures StartsAfter(s, true) >= 1
  {
    if IsSpace(s[0]) {
      StartsAfterEndsInWord(s[1..]);
    }
  }

  lemma StartsAfterUnfold(x: string)
    ensures StartsAfter(x, true) == StartsAfter(x, false) + (if x != [] && !IsSpace(x[0]) then 1 else 0)
  {
  }

  /** Counting the non-empty pieces of the split is counting word starts. */
  lemma {:induction false} PiecesCountWords(s: string)
    ensures |NonEmpty(SplitOnWhitespace(s))| == WordStarts(s)
    decreases |s|
  {
    if s == [] {
    } else if IsSpace(s[0]) {
      PiecesCountWords(TrimStart(s));
      StartsAfterLeadingSpace(s);
    } else {
      var r := SplitOnWhitespace(s[1..]);
      PiecesCountWords(s[1..]);
      assert r == [r[0]] + r[1..];
      assert NonEmpty(r) == (if r[0] == [] then [] else [r[0]]) + NonEmpty(r[1..]);
      assert ([[s[0]] + r[0]] + r[1..])[1..] == r[1..];
      StartsAfterUnfold(s[1..]);
    }
  }

  /** `countWordsChars` counts the characters up to the last non-space one, and the words of the text. */
  lemma {:induction false} CountWordsCharsSpec(text: string)
    ensures CountWordsChars(text).chars == |TrimEnd(text)|
    ensures CountWordsChars(text).words == WordStarts(text)
    ensures CountWordsChars(text).words == 0 <==> CountWordsChars(text).chars == 0
    ensures CountWordsChars(text).words <= CountWordsChars(text).chars
  {
    var t := TrimEnd(text);
    assert text == t + text[|t|..];
    StartsAfterAppend(t, text[|t|..], true);
    StartsAfterAllSpace(text[|t|..], if t == [] then true else IsSpace(t[|t| - 1]));
    var u := Trim(t);
    TrimEndOfNonSpace(t);
    assert u == TrimStart(t);
    StartsAfterLeadingSpace(t);
    PiecesCountWords(u);
    if t != [] {
      StartsAfterEndsInWord(t);
    }
  }

  /** The default chapter text, a single newline, has no words and no characters. */
  lemma DefaultTextCounts()
    ensures CountWordsChars("\n") == Counts(0, 0)
  {
    assert IsSpace('\n');
    assert TrimEnd("\n") == TrimEnd("");
  }
}
