/**
 * The small string helpers of app.js: `escapeHtml`, `safeFilename`, `splitComma`
 * and `escapeRegExp`, each with the inverse or fixed-point property it promises.
 */
module StringHelpers {
  import opened Text

  // ---------------------------------------------------------------- escapeHtml

  /** The replacement `escapeHtml` uses for one character. */
  function HtmlEntity(c: char): string {
    match c
    case '&' => "&amp;"
    case '<' => "&lt;"
    case '>' => "&gt;"
    case '"' => "&quot;"
    case '\'' => "&#39;"
    case _ => [c]
  }

  predicate HtmlSpecial(c: char) {
    c == '<' || c == '>' || c == '"' || c == '\''
  }

  /** `escapeHtml`: replaces each of `& < > " '` by its character reference. */
  function EscapeHtml(s: string): (r: string)
    ensures forall i :: 0 <= i < |r| ==> !HtmlSpecial(r[i])
    ensures |s| <= |r|
  {
    if s == [] then [] else HtmlEntity(s[0]) + EscapeHtml(s[1..])
  }

  predicate StartsWith(s: string, prefix: string) {
    |prefix| <= |s| && s[..|prefix|] == prefix
  }

  /** Decoding of the five character references `EscapeHtml` produces. */
  function UnescapeHtml(s: string): string
    decreases |s|
  {
    if s == [] then []
    else if s[0] != '&' then [s[0]] + UnescapeHtml(s[1..])
    else if StartsWith(s, "&amp;") then "&" + UnescapeHtml(s[5..])
    else if StartsWith(s, "&lt;") then "<" + UnescapeHtml(s[4..])
    else if StartsWith(s, "&gt;") then ">" + UnescapeHtml(s[4..])
    else if StartsWith(s, "&quot;") then "\"" + UnescapeHtml(s[6..])
    else if StartsWith(s, "&#39;") then "'" + UnescapeHtml(s[5..])
    else [s[0]] + UnescapeHtml(s[1..])
  }

  lemma UnescapeAmp(rest: string)
    ensures UnescapeHtml("&amp;" + rest) == "&" + UnescapeHtml(rest)
  {
    var e := "&amp;" + rest;
    assert StartsWith(e, "&amp;") && e[5..] == rest;
  }

  lemma UnescapeLt(rest: string)
    ensures UnescapeHtml("&lt;" + rest) == "<" + UnescapeHtml(rest)
  {
    var e := "&lt;" + rest;
    assert e[1] == 'l' && StartsWith(e, "&lt;") && e[4..] == rest;
  }

  lemma UnescapeGt(rest: string)
    ensures UnescapeHtml("&gt;" + rest) == ">" + UnescapeHtml(rest)
  {
    var e := "&gt;" + rest;
    assert e[1] == 'g' && StartsWith(e, "&gt;") && e[4..] == rest;
  }

  lemma UnescapeQuot(rest: string)
    ensures UnescapeHtml("&quot;" + rest) == "\"" + UnescapeHtml(rest)
  {
    var e := "&quot;" + rest;
    assert e[1] == 'q' && StartsWith(e, "&quot;") && e[6..] == rest;
  }

  lemma UnescapeApos(rest: string)
    ensures UnescapeHtml("&#39;" + rest) == "'" + UnescapeHtml(rest)
  {
    var e := "&#39;" + rest;
    assert e[1] == '#' && e[2] == '3' && StartsWith(e, "&#39;") && e[5..] == rest;
  }

  lemma UnescapeEntity(c: char, rest: string)
    ensures UnescapeHtml(HtmlEntity(c) + rest) == [c] + UnescapeHtml(rest)
  {
    match c
    case '&' => UnescapeAmp(rest);
    case '<' => UnescapeLt(rest);
    case '>' => UnescapeGt(rest);
    case '"' => UnescapeQuot(rest);
    case '\'' => UnescapeApos(rest);
    case _ =>
      var e := [c] + rest;
      assert e[0] == c && e[1..] == rest;
  }

  /** Escaping loses nothing: decoding the references gives the input back. */
  lemma {:induction false} UnescapeEscapeHtml(s: string)
    ensures UnescapeHtml(EscapeHtml(s)) == s
  {
    if s != [] {
      UnescapeEntity(s[0], EscapeHtml(s[1..]));
      UnescapeEscapeHtml(s[1..]);
      assert s == [s[0]] + s[1..];
    }
  }

  // -------------------------------------------------------------- safeFilename

  /** The class `[a-z0-9_\-]` under the `i` flag. */
  predicate FilenameChar(c: char) {
    ('a' <= c <= 'z') || ('A' <= c <= 'Z') || ('0' <= c <= '9') || c == '_' || c == '-'
  }

  /** What `safeFilename` may return: lower-case letters, digits, `_` and `-`. */
  predicate SafeChar(c: char) {
    ('a' <= c <= 'z') || ('0' <= c <= '9') || c == '_' || c == '-'
  }

  predicate NoDoubleUnderscore(s: string) {
    forall i :: 0 <= i < |s| - 1 ==> !(s[i] == '_' && s[i + 1] == '_')
  }

  /** The shape of every `safeFilename` result. */
  predicate SafeName(s: string) {
    && s != []
    && (forall i :: 0 <= i < |s| ==> SafeChar(s[i]))
    && s[0] != '_' && s[|s| - 1] != '_'
    && NoDoubleUnderscore(s)
  }

  /** `replace(/[^a-z0-9_\-]+/gi, "_")`: each maximal run of other characters becomes one `_`. */
  function ReplaceDisallowedRuns(s: string, inRun: bool): string {
    if s == [] then []
    else if FilenameChar(s[0]) then [s[0]] + ReplaceDisallowedRuns(s[1..], false)
    else (if inRun then [] else "_") + ReplaceDisallowedRuns(s[1..], true)
  }

  /** `replace(/_+/g, "_")`: each run of underscores becomes one. */
  function CollapseUnderscores(s: string, inRun: bool): string {
    if s == [] then []
    else if s[0] == '_' then
      var rest := CollapseUnderscores(s[1..], true);
      if inRun then rest else "_" + rest
    else
      [s[0]] + CollapseUnderscores(s[1..], false)
  }

  /** `replace(/^_+/, "")`: drops the leading run of underscores and nothing else. */
  function DropLeadingUnderscores(s: string): (r: string)
    ensures |r| <= |s| && r == s[|s| - |r|..]
    ensures forall k :: 0 <= k < |s| - |r| ==> s[k] == '_'
    ensures r == [] || r[0] != '_'
  {
    if s != [] && s[0] == '_' then
      var r := DropLeadingUnderscores(s[1..]);
      assert s[1..][|s| - 1 - |r|..] == s[|s| - |r|..];
      assert forall k :: 1 <= k < |s| - |r| ==> s[k] == s[1..][k - 1];
      r
    else s
  }

  /** `replace(/_+$/, "")`: drops the trailing run of underscores and nothing else. */
  function DropTrailingUnderscores(s: string): (r: string)
    ensures |r| <= |s| && r == s[..|r|]
    ensures forall k :: |r| <= k < |s| ==> s[k] == '_'
    ensures r == [] || r[|r| - 1] != '_'
  {
    if s != [] && s[|s| - 1] == '_' then DropTrailingUnderscores(s[..|s| - 1]) else s
  }

  /** `replace(/^_+|_+$/g, "")`. */
  function StripUnderscores(s: string): string {
    DropTrailingUnderscores(DropLeadingUnderscores(s))
  }

  /** `toLowerCase`, on strings of `FilenameChar`s the ASCII mapping. */
  function LowerAll(s: string): (r: string)
    ensures |r| == |s|
    ensures forall i :: 0 <= i < |s| ==> r[i] == Lower(s[i])
  {
    if s == [] then [] else [Lower(s[0])] + LowerAll(s[1..])
  }

  /** `safeFilename`; an empty name stands for the absent one and becomes "export". */
  function SafeFilename(name: string): string {
    var base := if name == [] then "export" else name;
    var s := LowerAll(StripUnderscores(Collapsed(base)));
    if s == [] then "export" else s
  }

  lemma SliceKeepsChars(s: string, lo: int, hi: int)
    requires 0 <= lo <= hi <= |s|
    requires forall i :: 0 <= i < |s| ==> FilenameChar(s[i])
    requires NoDoubleUnderscore(s)
    ensures forall i :: 0 <= i < hi - lo ==> FilenameChar(s[lo..hi][i])
    ensures NoDoubleUnderscore(s[lo..hi])
  {
    var t := s[lo..hi];
    forall i | 0 <= i < |t| - 1 ensures !(t[i] == '_' && t[i + 1] == '_') {
      assert t[i] == s[lo + i] && t[i + 1] == s[lo + i + 1];
    }
  }

  /** Stripping keeps a middle slice, so the character class and the single underscores survive. */
  lemma StripKeeps(b: string)
    requires forall i :: 0 <= i < |b| ==> FilenameChar(b[i])
    requires NoDoubleUnderscore(b)
    ensures var c := StripUnderscores(b);
      && (forall i :: 0 <= i < |c| ==> FilenameChar(c[i]))
      && NoDoubleUnderscore(c)
      && (c == [] || (c[0] != '_' && c[|c| - 1] != '_'))
  {
    var c1 := DropLeadingUnderscores(b);
    SliceKeepsChars(b, |b| - |c1|, |b|);
    var c := DropTrailingUnderscores(c1);
    SliceKeepsChars(c1, 0, |c|);
    assert c == [] || c[0] == c1[0];
  }

  /** Lower-casing a `FilenameChar` gives a `SafeChar` and maps `_` exactly to itself. */
  lemma LowerChar(x: char)
    requires FilenameChar(x)
    ensures SafeChar(Lower(x))
    ensures Lower(x) == '_' <==> x == '_'
  {
  }

  lemma LowerKeeps(c: string)
    requires c != [] && forall i :: 0 <= i < |c| ==> FilenameChar(c[i])
    requires NoDoubleUnderscore(c) && c[0] != '_' && c[|c| - 1] != '_'
    ensures SafeName(LowerAll(c))
  {
    var d := LowerAll(c);
    forall i | 0 <= i < |d| ensures SafeChar(d[i]) && (d[i] == '_' <==> c[i] == '_') {
      LowerChar(c[i]);
    }
    assert d[0] != '_' && d[|d| - 1] != '_';
    forall i | 0 <= i < |d| - 1 ensures !(d[i] == '_' && d[i + 1] == '_') {
      assert c[i] != '_' || c[i + 1] != '_';
    }
  }

  /** Every result of `safeFilename` is non-empty, lower-case, `[a-z0-9_-]` only, without `_` at either end or `__` inside. */
  lemma SafeFilenameIsSafe(name: string)
    ensures SafeName(SafeFilename(name))
  {
    var b := Collapsed(if name == [] then "export" else name);
    CollapsedKeeps(if name == [] then "export" else name);
    StripKeeps(b);
    var c := StripUnderscores(b);
    SafeFilenameUnfold(name);
    if c != [] {
      LowerKeeps(c);
    } else {
      ExportIsSafe();
    }
  }

  lemma SafeFilenameUnfold(name: string)
    ensures var c := StripUnderscores(Collapsed(if name == [] then "export" else name));
      SafeFilename(name) == if c == [] then "export" else LowerAll(c)
  {
  }

  /** The name after the two replacements, before the ends are stripped. */
  function Collapsed(base: string): string {
    CollapseUnderscores(ReplaceDisallowedRuns(base, false), false)
  }

  lemma CollapsedKeeps(base: string)
    ensures var b := Collapsed(base);
      (forall i :: 0 <= i < |b| ==> FilenameChar(b[i])) && NoDoubleUnderscore(b)
  {
    var a := ReplaceDisallowedRuns(base, false);
    ReplaceAlphabet(base, false);
    assert forall i :: 0 <= i < |a| ==> FilenameChar(a[i]);
    CollapseAlphabet(a, false);
    CollapseNoDouble(a, false);
    assert Collapsed(base) == CollapseUnderscores(a, false);
  }

  /** The first replace leaves only allowed characters. */
  lemma {:induction false} ReplaceAlphabet(s: string, inRun: bool)
    ensures forall i :: 0 <= i < |ReplaceDisallowedRuns(s, inRun)| ==> FilenameChar(ReplaceDisallowedRuns(s, inRun)[i])
    decreases |s|
  {
    if s != [] {
      ReplaceAlphabet(s[1..], !FilenameChar(s[0]));
      ReplaceUnfold(s, inRun);
    }
  }

  /** The collapse keeps the allowed alphabet. */
  lemma {:induction false} CollapseAlphabet(s: string, inRun: bool)
    requires forall i :: 0 <= i < |s| ==> FilenameChar(s[i])
    ensures forall i :: 0 <= i < |CollapseUnderscores(s, inRun)| ==> FilenameChar(CollapseUnderscores(s, inRun)[i])
    decreases |s|
  {
    if s != [] {
      var rest := CollapseUnderscores(s[1..], s[0] == '_');
      assert forall i :: 0 <= i < |s| - 1 ==> FilenameChar(s[1..][i]) by {
        forall i | 0 <= i < |s| - 1 ensures FilenameChar(s[1..][i]) { assert s[1..][i] == s[i + 1]; }
      }
      CollapseAlphabet(s[1..], s[0] == '_');
      CollapseUnfold(s, inRun);
      if s[0] != '_' || !inRun {
        var r := [if s[0] != '_' then s[0] else '_'] + rest;
        forall i | 0 <= i < |r| ensures FilenameChar(r[i]) {
          if i > 0 { assert r[i] == rest[i - 1]; }
        }
      }
    }
  }

  /** After the collapse no two underscores are adjacent; inside a run the result does not start with `_`. */
  lemma {:induction false} CollapseNoDouble(s: string, inRun: bool)
    ensures NoDoubleUnderscore(CollapseUnderscores(s, inRun))
    ensures inRun && CollapseUnderscores(s, inRun) != [] ==> CollapseUnderscores(s, inRun)[0] != '_'
    decreases |s|
  {
    if s != [] {
      var rest := CollapseUnderscores(s[1..], s[0] == '_');
      CollapseNoDouble(s[1..], s[0] == '_');
      CollapseUnfold(s, inRun);
      var h: string := if s[0] != '_' then [s[0]] else if inRun then [] else ['_'];
      var r := h + rest;
      forall i | 0 <= i < |r| - 1 ensures !(r[i] == '_' && r[i + 1] == '_') {
        if i >= |h| {
          assert r[i] == rest[i - |h|] && r[i + 1] == rest[i + 1 - |h|];
        }
      }
    }
  }

  lemma ExportIsSafe()
    ensures SafeName("export")
  {
    assert "export"[5] == 't';
  }

  lemma {:induction false} ReplaceAllowed(s: string, inRun: bool)
    requires forall i :: 0 <= i < |s| ==> FilenameChar(s[i])
    ensures ReplaceDisallowedRuns(s, inRun) == s
  {
    if s != [] {
      ReplaceAllowed(s[1..], false);
    }
  }

  /**
   * The first replace works block by block: the rest of the text is processed knowing whether
   * what came before ended in a disallowed character.
   */
  lemma {:induction false} ReplaceAppend(a: string, b: string, inRun: bool)
    ensures ReplaceDisallowedRuns(a + b, inRun)
      == ReplaceDisallowedRuns(a, inRun) + ReplaceDisallowedRuns(b, if a == [] then inRun else !FilenameChar(a[|a| - 1]))
    decreases |a|
  {
    if a == [] {
      assert a + b == b;
    } else {
      var h: string := if FilenameChar(a[0]) then [a[0]] else if inRun then [] else ['_'];
      ConsSplit(a, b);
      ReplaceUnfold(a + b, inRun);
      ReplaceUnfold(a, inRun);
      ReplaceAppend(a[1..], b, !FilenameChar(a[0]));
      if a[1..] != [] {
        assert a[1..][|a[1..]| - 1] == a[|a| - 1];
      }
      Assoc(h, ReplaceDisallowedRuns(a[1..], !FilenameChar(a[0])),
        ReplaceDisallowedRuns(b, !FilenameChar(a[|a| - 1])));
    }
  }

  lemma ReplaceUnfold(s: string, inRun: bool)
    requires s != []
    ensures ReplaceDisallowedRuns(s, inRun)
      == (if FilenameChar(s[0]) then [s[0]] else if inRun then [] else ['_']) + ReplaceDisallowedRuns(s[1..], !FilenameChar(s[0]))
  {
  }

  /** A whole run of disallowed characters becomes a single `_` (nothing more when it continues a run). */
  lemma {:induction false} ReplaceDisallowedRun(d: string, inRun: bool)
    requires d != [] && forall i :: 0 <= i < |d| ==> !FilenameChar(d[i])
    ensures ReplaceDisallowedRuns(d, inRun) == if inRun then [] else ['_']
    decreases |d|
  {
    if |d| > 1 {
      ReplaceDisallowedRun(d[1..], true);
    }
  }

  /** The collapse works block by block: the rest is processed knowing whether what came before ended in `_`. */
  lemma {:induction false} CollapseAppend(a: string, b: string, inRun: bool)
    ensures CollapseUnderscores(a + b, inRun)
      == CollapseUnderscores(a, inRun) + CollapseUnderscores(b, if a == [] then inRun else a[|a| - 1] == '_')
    decreases |a|
  {
    if a == [] {
      assert a + b == b;
    } else {
      var h: string := if a[0] != '_' then [a[0]] else if inRun then [] else ['_'];
      ConsSplit(a, b);
      CollapseUnfold(a + b, inRun);
      CollapseUnfold(a, inRun);
      CollapseAppend(a[1..], b, a[0] == '_');
      if a[1..] != [] {
        assert a[1..][|a[1..]| - 1] == a[|a| - 1];
      }
      Assoc(h, CollapseUnderscores(a[1..], a[0] == '_'), CollapseUnderscores(b, a[|a| - 1] == '_'));
    }
  }

  lemma CollapseUnfold(s: string, inRun: bool)
    requires s != []
    ensures CollapseUnderscores(s, inRun)
      == (if s[0] != '_' then [s[0]] else if inRun then [] else ['_']) + CollapseUnderscores(s[1..], s[0] == '_')
  {
  }

  /** The text without its underscores. */
  function OmitUnderscores(s: string): (r: string)
    ensures forall i :: 0 <= i < |r| ==> r[i] != '_'
  {
    if s == [] then [] else (if s[0] == '_' then [] else [s[0]]) + OmitUnderscores(s[1..])
  }

  lemma {:induction false} OmitUnderscoresAppend(a: string, b: string)
    ensures OmitUnderscores(a + b) == OmitUnderscores(a) + OmitUnderscores(b)
    decreases |a|
  {
    if a == [] {
      assert a + b == b;
    } else {
      ConsSplit(a, b);
      OmitUnderscoresAppend(a[1..], b);
      Assoc(if a[0] == '_' then [] else [a[0]], OmitUnderscores(a[1..]), OmitUnderscores(b));
    }
  }

  /** The collapse touches only underscores: every other character is kept, in order. */
  lemma {:induction false} CollapseKeepsOthers(s: string, inRun: bool)
    ensures OmitUnderscores(CollapseUnderscores(s, inRun)) == OmitUnderscores(s)
    decreases |s|
  {
    if s != [] {
      var h: string := if s[0] != '_' then [s[0]] else if inRun then [] else ['_'];
      CollapseUnfold(s, inRun);
      OmitUnderscoresAppend(h, CollapseUnderscores(s[1..], s[0] == '_'));
      CollapseKeepsOthers(s[1..], s[0] == '_');
      assert OmitUnderscores(h) == if s[0] == '_' then [] else [s[0]];
    }
  }

  /** A whole run of underscores becomes a single `_` (nothing more when it continues a run). */
  lemma {:induction false} CollapseRun(u: string, inRun: bool)
    requires u != [] && forall i :: 0 <= i < |u| ==> u[i] == '_'
    ensures CollapseUnderscores(u, inRun) == if inRun then [] else ['_']
    decreases |u|
  {
    if |u| > 1 {
      CollapseRun(u[1..], true);
    }
  }

  lemma {:induction false} CollapseSingle(s: string, inRun: bool)
    requires NoDoubleUnderscore(s)
    requires inRun ==> s == [] || s[0] != '_'
    ensures CollapseUnderscores(s, inRun) == s
  {
    if s != [] {
      CollapseSingle(s[1..], s[0] == '_');
    }
  }

  /** A name already of the safe shape comes back unchanged. */
  lemma SafeFilenameOfSafe(s: string)
    requires SafeName(s)
    ensures SafeFilename(s) == s
  {
    ReplaceAllowed(s, false);
    CollapseSingle(s, false);
    assert DropLeadingUnderscores(s) == s;
    assert DropTrailingUnderscores(s) == s;
    var d := LowerAll(s);
    forall i | 0 <= i < |s| ensures d[i] == s[i] {
      assert SafeChar(s[i]);
    }
    assert d == s;
  }

  /** `safeFilename` is idempotent. */
  lemma SafeFilenameIdempotent(name: string)
    ensures SafeFilename(SafeFilename(name)) == SafeFilename(name)
  {
    SafeFilenameIsSafe(name);
    SafeFilenameOfSafe(SafeFilename(name));
  }

  /** A word made only of letters, digits and `-`. */
  predicate Word(w: string) {
    w != [] && forall i :: 0 <= i < |w| ==> FilenameChar(w[i]) && w[i] != '_'
  }

  /** Two words separated by a run of other characters export as the lower-cased words joined by `_`. */
  lemma SafeFilenameOfWords(a: string, d: string, b: string)
    requires Word(a) && Word(b)
    requires d != [] && forall i :: 0 <= i < |d| ==> !FilenameChar(d[i])
    ensures SafeFilename(a + d + b) == LowerAll(a) + ['_'] + LowerAll(b)
  {
    var r := a + ['_'] + b;
    CollapsedOfWords(a, d, b);
    assert r[0] == a[0] && r[|r| - 1] == b[|b| - 1];
    assert DropLeadingUnderscores(r) == r;
    assert DropTrailingUnderscores(r) == r;
    LowerAllAppend(a + ['_'], b);
    LowerAllAppend(a, ['_']);
    LowerAllUnderscore(['_']);
  }

  lemma CollapsedOfWords(a: string, d: string, b: string)
    requires Word(a) && Word(b)
    requires d != [] && forall i :: 0 <= i < |d| ==> !FilenameChar(d[i])
    ensures Collapsed(a + d + b) == a + ['_'] + b
  {
    ReplaceAppend(a + d, b, false);
    ReplaceAppend(a, d, false);
    ReplaceAllowed(a, false);
    ReplaceDisallowedRun(d, false);
    ReplaceAllowed(b, true);
    assert (a + d)[|a + d| - 1] == d[|d| - 1];
    var r := a + ['_'] + b;
    assert ReplaceDisallowedRuns(a + d + b, false) == r;
    assert forall i :: 0 <= i < |r| && r[i] == '_' ==> i == |a|;
    CollapseSingle(r, false);
  }

  lemma LowerAllUnderscore(u: string)
    requires u == ['_']
    ensures LowerAll(u) == u
  {
  }

  lemma {:induction false} LowerAllAppend(x: string, y: string)
    ensures LowerAll(x + y) == LowerAll(x) + LowerAll(y)
    decreases |x|
  {
    if x == [] {
      assert x + y == y;
    } else {
      ConsSplit(x, y);
      LowerAllAppend(x[1..], y);
      Assoc([Lower(x[0])], LowerAll(x[1..]), LowerAll(y));
    }
  }

  /** The default project name "My Novel" (app.js:70) exports as "my_novel" (app.js:273). */
  lemma DefaultProjectFilename(name: string)
    requires name == "My Novel"
    ensures SafeFilename(name) == "my_novel"
  {
    var a, d, b := name[..2], name[2..3], name[3..];
    assert name == a + d + b;
    assert a == "My" && b == "Novel";
    MyNovelWords(a, b);
    SafeFilenameOfWords(a, d, b);
  }

  lemma MyNovelWords(a: string, b: string)
    requires a == "My" && b == "Novel"
    ensures Word(a) && Word(b) && LowerAll(a) + ['_'] + LowerAll(b) == "my_novel"
  {
    CapitalisedWord(a, 'm');
    forall i | 1 <= i < |b| ensures 'a' <= b[i] <= 'z' {
      if i == 1 {} else if i == 2 {} else if i == 3 {} else {}
    }
    CapitalisedWord(b, 'n');
    var r := ['m'] + a[1..] + ['_'] + (['n'] + b[1..]);
    assert |r| == 8;
    forall k | 0 <= k < 8 ensures r[k] == "my_novel"[k] {
      if k < 2 {} else if k == 2 {} else if k == 3 {} else if k == 4 {} else if k == 5 {} else if k == 6 {} else {}
    }
  }

  /** A capitalised word lower-cases to `first` followed by the rest of the word. */
  lemma CapitalisedWord(w: string, first: char)
    requires w != [] && 'A' <= w[0] <= 'Z' && first == Lower(w[0])
    requires forall i :: 1 <= i < |w| ==> 'a' <= w[i] <= 'z'
    ensures Word(w) && LowerAll(w) == [first] + w[1..]
  {
  }

  // ---------------------------------------------------------------- splitComma

  predicate CommaFree(s: string) {
    forall k :: 0 <= k < |s| ==> s[k] != ','
  }

  function IndexOfComma(s: string): (i: nat)
    requires !CommaFree(s)
    ensures i < |s| && s[i] == ',' && CommaFree(s[..i])
  {
    if s[0] == ',' then 0 else
    assert !CommaFree(s[1..]) by { var k :| 0 <= k < |s| && s[k] == ','; assert s[1..][k - 1] == ','; }
    var j := IndexOfComma(s[1..]);
    assert s[..j + 1] == [s[0]] + s[1..][..j];
    j + 1
  }

  /** `split(",")`. */
  function SplitOnComma(s: string): (r: seq<string>)
    ensures |r| >= 1
    decreases |s|
  {
    if CommaFree(s) then [s]
    else
      var i := IndexOfComma(s);
      [s[..i]] + SplitOnComma(s[i + 1..])
  }

  /** `Array.prototype.join(sep)`. */
  function Join(xs: seq<string>, sep: string): string {
    if xs == [] then "" else if |xs| == 1 then xs[0] else xs[0] + sep + Join(xs[1..], sep)
  }

  /** `map(s => s.trim())`. */
  function TrimAll(xs: seq<string>): seq<string> {
    seq(|xs|, k requires 0 <= k < |xs| => Trim(xs[k]))
  }

  /** `splitComma`: comma-separated, trimmed, non-empty entries. */
  function SplitComma(s: string): (r: seq<string>)
    ensures forall k :: 0 <= k < |r| ==> r[k] != [] && Trimmed(r[k])
  {
    NonEmpty(TrimAll(SplitOnComma(s)))
  }

  /** The first comma is the one with no comma before it. */
  lemma CommaIndexUnique(s: string, i: nat)
    requires i < |s| && s[i] == ',' && CommaFree(s[..i])
    ensures IndexOfComma(s) == i
  {
    var j := IndexOfComma(s);
    assert forall k :: 0 <= k < i ==> s[k] == s[..i][k];
    assert forall k :: 0 <= k < j ==> s[k] == s[..j][k];
  }

  lemma SplitOnCommaCons(x: string, rest: string)
    requires CommaFree(x)
    ensures SplitOnComma(x + "," + rest) == [x] + SplitOnComma(rest)
  {
    var s := x + "," + rest;
    assert s[..|x|] == x && s[|x|] == ',' && s[|x| + 1..] == rest;
    CommaIndexUnique(s, |x|);
  }

  lemma CommaFreeConcat(p: string, q: string)
    requires CommaFree(p) && CommaFree(q)
    ensures CommaFree(p + q)
  {
    var pq := p + q;
    forall k | 0 <= k < |pq| ensures pq[k] != ',' {
      if k >= |p| {
        assert pq[k] == q[k - |p|];
      }
    }
  }

  lemma SliceAfterPrefix<T>(p: seq<T>, s: seq<T>, i: nat)
    requires i < |s|
    ensures (p + s)[..|p| + i] == p + s[..i]
    ensures (p + s)[|p| + i] == s[i]
    ensures (p + s)[|p| + i + 1..] == s[i + 1..]
  {
  }

  lemma SplitOnCommaAt(s: string)
    requires !CommaFree(s)
    ensures var i := IndexOfComma(s); SplitOnComma(s) == [s[..i]] + SplitOnComma(s[i + 1..])
  {
  }

  lemma SplitOnCommaAtIndex(s: string, i: nat)
    requires i < |s| && s[i] == ',' && CommaFree(s[..i])
    ensures SplitOnComma(s) == [s[..i]] + SplitOnComma(s[i + 1..])
  {
    CommaIndexUnique(s, i);
  }

  lemma HeadTail<T>(r: seq<T>, a: T, rest: seq<T>)
    requires r == [a] + rest
    ensures r[0] == a && r[1..] == rest
  {
  }

  /** A comma-free prefix joins the first piece. */
  lemma SplitOnCommaPrefix(p: string, s: string)
    requires CommaFree(p)
    ensures var r := SplitOnComma(s); SplitOnComma(p + s) == [p + r[0]] + r[1..]
  {
    var ps := p + s;
    if CommaFree(s) {
      CommaFreeConcat(p, s);
    } else {
      var i := IndexOfComma(s);
      var a, rest := s[..i], SplitOnComma(s[i + 1..]);
      SplitOnCommaAt(s);
      HeadTail(SplitOnComma(s), a, rest);
      SliceAfterPrefix(p, s, i);
      CommaFreeConcat(p, a);
      SplitOnCommaAtIndex(ps, |p| + i);
      assert SplitOnComma(ps) == [p + a] + rest;
    }
  }

  /** Entries as `splitComma` produces them: non-empty, trimmed, without a comma. */
  predicate CommaListEntry(x: string) {
    x != [] && Trimmed(x) && CommaFree(x)
  }

  function Spaced(xs: seq<string>): (r: seq<string>)
    ensures |r| == |xs|
    ensures forall k :: 0 <= k < |xs| ==> r[k] == " " + xs[k]
  {
    if xs == [] then [] else [" " + xs[0]] + Spaced(xs[1..])
  }

  /** `split(",")` of a `join(", ")`: the first entry, then the others each behind one space. */
  lemma {:induction false} SplitJoinSpaced(xs: seq<string>)
    requires |xs| >= 1 && forall k :: 0 <= k < |xs| ==> CommaFree(xs[k])
    ensures SplitOnComma(Join(xs, ", ")) == [xs[0]] + Spaced(xs[1..])
  {
    if |xs| > 1 {
      var j := Join(xs[1..], ", ");
      assert Join(xs, ", ") == xs[0] + "," + (" " + j);
      SplitOnCommaCons(xs[0], " " + j);
      SplitJoinSpaced(xs[1..]);
      SplitOnCommaPrefix(" ", j);
    }
  }

  /** `splitComma` reads back the list that the settings form shows with `join(", ")`. */
  lemma SplitCommaOfJoin(xs: seq<string>)
    requires forall k :: 0 <= k < |xs| ==> CommaListEntry(xs[k])
    ensures SplitComma(Join(xs, ", ")) == xs
  {
    if xs == [] {
      SplitCommaEmpty();
    } else {
      var pieces := SplitOnComma(Join(xs, ", "));
      SplitJoinSpaced(xs);
      TrimAllSpaced(xs);
      assert TrimAll(pieces) == xs;
      NonEmptyOfNonEmpty(xs);
    }
  }

  /** Every piece of `split(",")` is free of commas. */
  lemma {:induction false} SplitOnCommaPieces(s: string)
    ensures forall k :: 0 <= k < |SplitOnComma(s)| ==> CommaFree(SplitOnComma(s)[k])
    decreases |s|
  {
    if !CommaFree(s) {
      var i := IndexOfComma(s);
      SplitOnCommaPieces(s[i + 1..]);
      var r := SplitOnComma(s);
      assert r == [s[..i]] + SplitOnComma(s[i + 1..]);
      forall k | 0 <= k < |r| ensures CommaFree(r[k]) {
        if k > 0 {
          assert r[k] == SplitOnComma(s[i + 1..])[k - 1];
        }
      }
    }
  }

  /** Trimming takes a slice, so it adds no comma. */
  lemma TrimCommaFree(x: string)
    requires CommaFree(x)
    ensures CommaFree(Trim(x))
  {
    var e := TrimEnd(x);
    var t := TrimStart(e);
    assert Trim(x) == t;
    SliceCommaFree(x, 0, |e|);
    assert x[0..|e|] == e;
    SliceCommaFree(e, |e| - |t|, |e|);
    assert e[|e| - |t|..|e|] == t;
  }

  lemma SliceCommaFree(x: string, lo: int, hi: int)
    requires CommaFree(x) && 0 <= lo <= hi <= |x|
    ensures CommaFree(x[lo..hi])
  {
    forall k | 0 <= k < hi - lo ensures x[lo..hi][k] != ',' {
      assert x[lo..hi][k] == x[lo + k];
    }
  }

  /** Every entry `splitComma` yields is non-empty, trimmed and free of commas. */
  lemma SplitCommaEntries(s: string)
    ensures forall k :: 0 <= k < |SplitComma(s)| ==> CommaListEntry(SplitComma(s)[k])
  {
    var pieces := SplitOnComma(s);
    var ts := TrimAll(pieces);
    SplitOnCommaPieces(s);
    forall k | 0 <= k < |ts| ensures CommaFree(ts[k]) {
      TrimCommaFree(pieces[k]);
    }
    var r := SplitComma(s);
    forall k | 0 <= k < |r| ensures CommaListEntry(r[k]) {
      assert r[k] in ts;
    }
  }

  /** Writing `splitComma`'s entries with `join(", ")` and splitting again gives the same entries. */
  lemma SplitCommaRoundTrip(s: string)
    ensures SplitComma(Join(SplitComma(s), ", ")) == SplitComma(s)
  {
    SplitCommaEntries(s);
    SplitCommaOfJoin(SplitComma(s));
  }

  /** An empty list is written as the empty string, which reads back as no entries. */
  lemma SplitCommaEmpty()
    ensures SplitComma("") == []
  {
    SplitOnCommaEmpty();
    TrimAllEmpty("");
    assert NonEmpty([""]) == NonEmpty([]);
  }

  lemma SplitOnCommaEmpty()
    ensures SplitOnComma("") == [""]
  {
    assert CommaFree("");
  }

  lemma TrimAllEmpty(e: string)
    requires e == []
    ensures TrimAll([e]) == [e]
  {
    TrimOfTrimmed(e);
  }

  lemma TrimAllSpaced(xs: seq<string>)
    requires |xs| >= 1 && forall k :: 0 <= k < |xs| ==> CommaListEntry(xs[k])
    ensures TrimAll([xs[0]] + Spaced(xs[1..])) == xs
  {
    var ps := [xs[0]] + Spaced(xs[1..]);
    var ts := TrimAll(ps);
    forall k | 0 <= k < |xs| ensures ts[k] == xs[k] {
      if k == 0 {
        TrimOfTrimmed(xs[0]);
      } else {
        assert ps[k] == " " + xs[k];
        TrimSpacedEntry(xs[k]);
      }
    }
  }

  lemma TrimSpacedEntry(x: string)
    requires CommaListEntry(x)
    ensures Trim(" " + x) == x
  {
    assert !AllSpace(x) by { assert !IsSpace(x[0]); }
    TrimLeadingSpace(' ', x);
    TrimOfTrimmed(x);
  }

  // -------------------------------------------------------------- escapeRegExp

  /** The characters `escapeRegExp` escapes: `. * + ? ^ $ { } ( ) | [ ] \`. */
  predicate RegExpSpecial(c: char) {
    c in ".*+?^${}()|[]\\"
  }

  /** `escapeRegExp`: a backslash before each special character, everything else as is. */
  function EscapeRegExp(s: string): (r: string)
    ensures |s| <= |r|
  {
    if s == [] then []
    else (if RegExpSpecial(s[0]) then ['\\', s[0]] else [s[0]]) + EscapeRegExp(s[1..])
  }

  /**
   * A pattern every part of which stands for one character: a character that is not special, or
   * a backslash before a special one. Escapes such as `\b`, `\d` or `\1` are excluded.
   */
  predicate LiteralPattern(p: string)
    decreases |p|
  {
    || p == []
    || (!RegExpSpecial(p[0]) && LiteralPattern(p[1..]))
    || (|p| >= 2 && p[0] == '\\' && RegExpSpecial(p[1]) && LiteralPattern(p[2..]))
  }

  /** The text a literal pattern matches. */
  function PatternLiteral(p: string): string
    requires LiteralPattern(p)
    decreases |p|
  {
    if p == [] then []
    else if p[0] == '\\' then [p[1]] + PatternLiteral(p[2..])
    else [p[0]] + PatternLiteral(p[1..])
  }

  /** An escaped title is a literal pattern: no character of it is read as regular-expression syntax. */
  lemma {:induction false} EscapeIsLiteral(s: string)
    ensures LiteralPattern(EscapeRegExp(s))
  {
    if s != [] {
      EscapeIsLiteral(s[1..]);
      var rest := EscapeRegExp(s[1..]);
      if RegExpSpecial(s[0]) {
        assert (['\\', s[0]] + rest)[2..] == rest;
      } else {
        assert ([s[0]] + rest)[1..] == rest;
      }
    }
  }

  /** `escapeRegExp` works character by character. */
  lemma {:induction false} EscapeRegExpAppend(a: string, b: string)
    ensures EscapeRegExp(a + b) == EscapeRegExp(a) + EscapeRegExp(b)
    decreases |a|
  {
    if a == [] {
      assert a + b == b;
    } else {
      var h := if RegExpSpecial(a[0]) then ['\\', a[0]] else [a[0]];
      ConsSplit(a, b);
      EscapeRegExpAppend(a[1..], b);
      Assoc(h, EscapeRegExp(a[1..]), EscapeRegExp(b));
    }
  }

  /** A special character gets a backslash in front; every other character is left as it is. */
  lemma EscapeRegExpChar(c: char)
    ensures EscapeRegExp([c]) == if RegExpSpecial(c) then ['\\', c] else [c]
  {
    assert [c][1..] == [];
  }

  /** An escaped title, read as a pattern, matches the title literally: removing the escapes gives back the input. */
  lemma {:induction false} PatternLiteralOfEscape(s: string)
    ensures LiteralPattern(EscapeRegExp(s)) && PatternLiteral(EscapeRegExp(s)) == s
  {
    EscapeIsLiteral(s);
    if s != [] {
      PatternLiteralOfEscape(s[1..]);
      var rest := EscapeRegExp(s[1..]);
      if RegExpSpecial(s[0]) {
        assert (['\\', s[0]] + rest)[2..] == rest;
      } else {
        assert ([s[0]] + rest)[1..] == rest;
      }
      assert s == [s[0]] + s[1..];
    }
  }
}
