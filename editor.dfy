/**
 * The editor document as the card-link pass and the annotation highlights see it: the plain
 * text and one format record per position, updated in place by `formatText`.
 */
module Editing {
  import opened Wrappers
  import opened Entities
  import opened StringHelpers
  import opened CardLinks

  /** The formats of one position: the card id of a `cardlink`, and the annotation background. */
  datatype Format = Format(cardlink: Option<Id>, background: bool)

  /** The attribute a `formatText` call writes: `cardlink` to a value (`false` is `None`), or the highlight. */
  datatype Attr = CardLink(value: Option<Id>) | Background

  function Apply(a: Attr, f: Format): (r: Format)
    ensures a.CardLink? ==> r.cardlink == a.value && r.background == f.background
    ensures a.Background? ==> r.cardlink == f.cardlink && r.background
  {
    match a
    case CardLink(v) => f.(cardlink := v)
    case Background => f.(background := true)
  }

  /** Position `p` lies in the range `[index, index + length)` of a `formatText` call. */
  predicate InRange(index: int, length: int, p: int) {
    index <= p < index + length
  }

  /** Some annotation of `cs` spans position `p`. */
  predicate Highlighted(cs: seq<Comment>, p: int) {
    exists k :: 0 <= k < |cs| && InRange(cs[k].index, cs[k].length, p)
  }

  /**
   * The formats a relink pass leaves (lines 556-581): outside the draft nothing changes; in the
   * draft every position gets the card id the pass picks there and keeps its highlight.
   */
  function PassResult(section: Section, text: string, library: seq<Card>, fs: seq<Format>): (r: seq<Format>)
    ensures |r| == |fs|
  {
    if section != Draft then fs
    else seq(|fs|, p requires 0 <= p < |fs| => Format(LinkAfterPass(text, library, p), fs[p].background))
  }

  /** The pass only writes `cardlink`: every highlight survives it. */
  lemma PassKeepsBackground(section: Section, text: string, library: seq<Card>, fs: seq<Format>)
    ensures forall p :: 0 <= p < |fs| ==> PassResult(section, text, library, fs)[p].background == fs[p].background
  {
  }

  /** Tags from an earlier pass or from a card since deleted never survive: the result depends on the old formats only through their highlights. */
  lemma PassForgetsOldLinks(text: string, library: seq<Card>, fs: seq<Format>, gs: seq<Format>)
    requires |fs| == |gs|
    requires forall p :: 0 <= p < |fs| ==> fs[p].background == gs[p].background
    ensures PassResult(Draft, text, library, fs) == PassResult(Draft, text, library, gs)
  {
  }

  /** Running the pass twice on the same text and library gives what running it once gives. */
  lemma PassIdempotent(section: Section, text: string, library: seq<Card>, fs: seq<Format>)
    ensures var once := PassResult(section, text, library, fs);
      PassResult(section, text, library, once) == once
  {
  }

  /** With no eligible card, a pass in the draft leaves no tag anywhere. */
  lemma PassWithoutCardsClears(text: string, library: seq<Card>, fs: seq<Format>)
    requires forall c :: c in library ==> !Eligible(c)
    ensures forall p :: 0 <= p < |fs| ==> PassResult(Draft, text, library, fs)[p].cardlink == None
  {
    forall p | 0 <= p < |fs| {
      NoEligibleCardNoTag(text, library, p);
    }
  }

  // ------------------------------------------------- what each step writes

  /** The formats after `formatText(index, length, a)`: `a` applied on the range, clamped to the document. */
  function Written(fs: seq<Format>, index: int, length: int, a: Attr): seq<Format> {
    seq(|fs|, p requires 0 <= p < |fs| => if InRange(index, length, p) then Apply(a, fs[p]) else fs[p])
  }

  /** The formats after the matches `ms` of a title of length `n` were tagged with `id`, in any order. */
  function Tagged(fs: seq<Format>, ms: seq<nat>, n: nat, id: Id): seq<Format> {
    seq(|fs|, p requires 0 <= p < |fs| => if CoveredBy(ms, n, p) then fs[p].(cardlink := Some(id)) else fs[p])
  }

  /** The formats once the entries `es` were processed in order after the clearing write. */
  function Linked(fs: seq<Format>, text: string, es: seq<Entry>): seq<Format> {
    seq(|fs|, p requires 0 <= p < |fs| => Format(IdOf(LastCovering(text, es, p)), fs[p].background))
  }

  /** The formats after the highlights of `cs` were applied. */
  function Highlights(fs: seq<Format>, cs: seq<Comment>): seq<Format> {
    seq(|fs|, p requires 0 <= p < |fs| => fs[p].(background := fs[p].background || Highlighted(cs, p)))
  }

  /** Tagging one more match is one more `formatText` over its range. */
  lemma TagOneMore(fs: seq<Format>, ms: seq<nat>, m: nat, n: nat, id: Id)
    ensures Written(Tagged(fs, ms, n, id), m, n, CardLink(Some(id))) == Tagged(fs, ms + [m], n, id)
  {
    forall p | 0 <= p < |fs|
      ensures Written(Tagged(fs, ms, n, id), m, n, CardLink(Some(id)))[p] == Tagged(fs, ms + [m], n, id)[p]
    {
      CoveredBySnoc(ms, m, n, p);
    }
  }

  /** One pass of the exec loop: the match lies inside the text, joins the visited ones, and its `formatText` tags it. */
  lemma TagStep(text: string, t: string, from: nat, m: nat, done: seq<nat>, fs: seq<Format>, id: Id)
    requires |t| > 0 && Exec(text, t, from) == Some(m)
    ensures m + |t| <= |text|
    ensures done + Matches(text, t, from) == (done + [m]) + Matches(text, t, m + |t|)
    ensures Written(Tagged(fs, done, |t|, id), m, |t|, CardLink(Some(id))) == Tagged(fs, done + [m], |t|, id)
  {
    ExecFits(text, t, from);
    MatchesStep(text, t, from, m, done);
    TagOneMore(fs, done, m, |t|, id);
  }

  /** Clearing the whole document is the state where no entry was processed yet. */
  lemma ClearedIsUnlinked(fs: seq<Format>, text: string)
    ensures Written(fs, 0, |fs|, CardLink(None)) == Linked(fs, text, [])
  {
  }

  /** Tagging every match of one more entry's title with its id is processing that entry last. */
  lemma LinkOneMore(fs: seq<Format>, text: string, es: seq<Entry>, e: Entry)
    ensures Tagged(Linked(fs, text, es), Matches(text, e.title, 0), |e.title|, e.id) == Linked(fs, text, es + [e])
  {
    forall p | 0 <= p < |fs|
      ensures Tagged(Linked(fs, text, es), Matches(text, e.title, 0), |e.title|, e.id)[p] == Linked(fs, text, es + [e])[p]
    {
      LastCoveringSnoc(text, es, e, p);
    }
  }

  /** Processing the whole sorted index is the pass. */
  lemma LinkedIsPass(fs: seq<Format>, text: string, library: seq<Card>)
    ensures Linked(fs, text, SortByLength(BuildIndex(library))) == PassResult(Draft, text, library, fs)
  {
  }

  /** Highlighting one more annotation is one more `formatText` over its range. */
  lemma HighlightOneMore(fs: seq<Format>, cs: seq<Comment>, c: Comment)
    ensures Written(Highlights(fs, cs), c.index, c.length, Background) == Highlights(fs, cs + [c])
  {
    forall p | 0 <= p < |fs|
      ensures Written(Highlights(fs, cs), c.index, c.length, Background)[p] == Highlights(fs, cs + [c])[p]
    {
      HighlightedSnoc(cs, c, p);
    }
  }

  /** Highlighting a stored annotation's range before the pass over the list that holds it changes nothing. */
  lemma HighlightAbsorbsWrite(fs: seq<Format>, c: Comment, rest: seq<Comment>)
    ensures Highlights(Written(fs, c.index, c.length, Background), [c] + rest) == Highlights(fs, [c] + rest)
  {
    forall p | 0 <= p < |fs|
      ensures Highlights(Written(fs, c.index, c.length, Background), [c] + rest)[p] == Highlights(fs, [c] + rest)[p]
    {
      if InRange(c.index, c.length, p) {
        assert ([c] + rest)[0] == c;
      }
    }
  }

  /** A second highlight pass over the same list changes nothing. */
  lemma HighlightsIdempotent(fs: seq<Format>, cs: seq<Comment>)
    ensures Highlights(Highlights(fs, cs), cs) == Highlights(fs, cs)
  {
  }

  /** The pass only ever adds a background: a highlight whose annotation is gone from the list stays. */
  lemma HighlightsKeep(fs: seq<Format>, cs: seq<Comment>)
    ensures |Highlights(fs, cs)| == |fs|
    ensures forall p :: 0 <= p < |fs| && fs[p].background ==> Highlights(fs, cs)[p].background
    ensures forall p :: 0 <= p < |fs| ==> Highlights(fs, cs)[p].cardlink == fs[p].cardlink
  {
  }

  /** The Quill editor of the current chapter: its plain text and the formats of each position. */
  class Editor {
    var text: string
    var formats: array<Format>

    ghost predicate Valid()
      reads this
    {
      formats.Length == |text|
    }

    /** A fresh document with no formats (`setContents` of a plain text). */
    constructor (t: string)
      ensures Valid() && text == t
      ensures forall p :: 0 <= p < formats.Length ==> formats[p] == Format(None, false)
    {
      text := t;
      formats := new Format[|t|](_ => Format(None, false));
    }

    /** `quill.formatText(index, length, attr)`: writes `a` on the positions of the range that lie in the document. */
    method FormatText(index: int, length: int, a: Attr)
      requires Valid()
      modifies formats
      ensures Valid()
      ensures formats[..] == Written(old(formats[..]), index, length, a)
    {
      var lo := if index < 0 then 0 else if index > formats.Length then formats.Length else index;
      var hi := if index + length > formats.Length then formats.Length else index + length;
      if hi < lo {
        hi := lo;
      }
      for p := lo to hi
        invariant forall q :: 0 <= q < formats.Length ==>
          formats[q] == if lo <= q < p then Apply(a, old(formats[q])) else old(formats[q])
      {
        formats[p] := Apply(a, formats[p]);
      }
      assert forall q :: 0 <= q < formats.Length ==> formats[..][q] == Written(old(formats[..]), index, length, a)[q];
    }

    /**
     * `refreshCardLinks` (lines 556-581): in the draft, clear every `cardlink`, then for each
     * eligible card, longest title first, tag every match of `\b<escaped title>\b` with the card's id.
     */
    method RefreshCardLinks(section: Section, library: seq<Card>)
      requires Valid()
      modifies formats
      ensures Valid()
      ensures formats[..] == PassResult(section, text, library, old(formats[..]))
    {
      if section != Draft {
        return;
      }
      var cards := BuildIndex(library);
      FormatText(0, formats.Length, CardLink(None));
      ClearedIsUnlinked(old(formats[..]), text);
      LinkedIsPass(old(formats[..]), text, library);
      if |cards| == 0 {
        assert SortByLength(cards) == [];
        return;
      }
      var sorted := SortByLength(cards);
      SortKeepsTitleLengths(cards);
      TagCards(sorted, old(formats[..]));
    }

    /**
     * The `for (const card of cards)` loop of the pass: each entry in turn tags its matches, so that
     * every position ends with the id of the last entry whose matches cover it.
     */
    method TagCards(es: seq<Entry>, ghost fs: seq<Format>)
      requires Valid() && forall k :: 0 <= k < |es| ==> |es[k].title| >= 2
      requires formats[..] == Linked(fs, text, [])
      modifies formats
      ensures Valid()
      ensures formats[..] == Linked(fs, text, es)
    {
      for k := 0 to |es|
        invariant Valid()
        invariant formats[..] == Linked(fs, text, es[..k])
      {
        var card := es[k];
        var pattern := EscapeRegExp(card.title);
        PatternLiteralOfEscape(card.title);
        var title := PatternLiteral(pattern);
        TagMatches(title, card.id);
        LinkOneMore(fs, text, es[..k], card);
        TakeOneMore(es, k);
      }
      assert es[..|es|] == es;
    }

    /** The `while ((m = re.exec(text)) !== null)` loop of one card: every match of `title` gets `id`. */
    method TagMatches(title: string, id: Id)
      requires Valid() && |title| > 0
      modifies formats
      ensures Valid()
      ensures formats[..] == Tagged(old(formats[..]), Matches(text, title, 0), |title|, id)
    {
      var lastIndex: nat := 0;
      ghost var done: seq<nat> := [];
      var m := Exec(text, title, lastIndex);
      while m.Some? && |title| > 0
        invariant Valid()
        invariant lastIndex <= |text|
        invariant m == Exec(text, title, lastIndex)
        invariant Matches(text, title, 0) == done + Matches(text, title, lastIndex)
        invariant formats[..] == Tagged(old(formats[..]), done, |title|, id)
        decreases |text| - lastIndex
      {
        var idx: nat := m.value;
        TagStep(text, title, lastIndex, idx, done, old(formats[..]), id);
        FormatText(idx, |title|, CardLink(Some(id)));
        done := done + [idx];
        lastIndex := idx + |title|;
        m := Exec(text, title, lastIndex);
      }
      MatchesEnd(text, title, lastIndex);
      assert done + [] == done;
    }

    /** `applyCommentHighlights` (lines 728-735): the background highlight on each annotation's range, clamped to the document. */
    method ApplyCommentHighlights(comments: seq<Comment>)
      requires Valid()
      modifies formats
      ensures Valid()
      ensures formats[..] == Highlights(old(formats[..]), comments)
    {
      assert old(formats[..]) == Highlights(old(formats[..]), comments[..0]);
      for k := 0 to |comments|
        invariant Valid()
        invariant formats[..] == Highlights(old(formats[..]), comments[..k])
      {
        var c := comments[k];
        FormatText(c.index, c.length, Background);
        HighlightOneMore(old(formats[..]), comments[..k], c);
        TakeOneMore(comments, k);
      }
      assert comments[..|comments|] == comments;
    }
  }

  lemma TakeOneMore<T>(s: seq<T>, k: nat)
    requires k < |s|
    ensures s[..k + 1] == s[..k] + [s[k]]
  {
  }

  lemma HighlightedSnoc(cs: seq<Comment>, c: Comment, p: int)
    ensures Highlighted(cs + [c], p) <==> Highlighted(cs, p) || InRange(c.index, c.length, p)
  {
    var cs' := cs + [c];
    if Highlighted(cs, p) {
      var k :| 0 <= k < |cs| && InRange(cs[k].index, cs[k].length, p);
      assert cs'[k] == cs[k];
    }
    if InRange(c.index, c.length, p) {
      assert cs'[|cs|] == c;
    }
    if Highlighted(cs', p) {
      var k :| 0 <= k < |cs'| && InRange(cs'[k].index, cs'[k].length, p);
      if k < |cs| { assert cs[k] == cs'[k]; }
    }
  }
}
