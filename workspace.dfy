/**
 * The workbench state: the current section and selection, the chapters of the draft, the
 * library cards, and the annotations of each chapter, with the operations that change them.
 */
module Store {
  import opened Wrappers
  import opened Text
  import opened Entities
  import opened Counting
  import opened Editing

  // ------------------------------------------------------------ lookups by id

  /** `find(x => x.id === id)`: the index of the first item with that id. */
  function FindId(ids: seq<Id>, id: Id): (r: Option<nat>)
    ensures r.Some? ==> r.value < |ids| && ids[r.value] == id && forall j :: 0 <= j < r.value ==> ids[j] != id
    ensures r.None? <==> id !in ids
  {
    if ids == [] then None
    else if ids[0] == id then Some(0)
    else
      assert forall j :: 1 <= j < |ids| ==> ids[j] == ids[1..][j - 1];
      assert id in ids ==> id in ids[1..];
      match FindId(ids[1..], id)
      case None => None
      case Some(j) => Some(j + 1)
  }

  function ChapterIds(cs: seq<Chapter>): seq<Id> {
    seq(|cs|, k requires 0 <= k < |cs| => cs[k].id)
  }

  lemma ChapterIdsSnoc(cs: seq<Chapter>, ch: Chapter)
    ensures ChapterIds(cs + [ch]) == ChapterIds(cs) + [ch.id]
  {
  }

  /** An id new to `ids` is found where it was appended. */
  lemma FindIdSnoc(ids: seq<Id>, id: Id)
    requires id !in ids
    ensures FindId(ids + [id], id) == Some(|ids|)
  {
    var r := FindId(ids + [id], id);
    assert (ids + [id])[|ids|] == id;
    assert forall j :: 0 <= j < |ids| ==> (ids + [id])[j] == ids[j];
  }

  function CardIds(cs: seq<Card>): seq<Id> {
    seq(|cs|, k requires 0 <= k < |cs| => cs[k].id)
  }

  /** `arr.splice(i, 1)`: the sequence without its `i`-th item, the others in order. */
  function RemoveAt<T>(s: seq<T>, i: nat): (r: seq<T>)
    requires i < |s|
    ensures |r| == |s| - 1
    ensures forall k :: 0 <= k < i ==> r[k] == s[k]
    ensures forall k :: i <= k < |r| ==> r[k] == s[k + 1]
  {
    s[..i] + s[i + 1..]
  }

  lemma SplitAt<T>(s: seq<T>, i: nat)
    requires i < |s|
    ensures s == s[..i] + ([s[i]] + s[i + 1..])
  {
  }

  /** `splice` drops exactly the one item: the multiset of the rest plus that item is the original. */
  lemma RemoveAtPerm<T>(s: seq<T>, i: nat)
    requires i < |s|
    ensures multiset(RemoveAt(s, i)) + multiset{s[i]} == multiset(s)
  {
    SplitAt(s, i);
    assert RemoveAt(s, i) == s[..i] + s[i + 1..];
  }

  // ---------------------------------------------------------- chapter defaults

  function Digit(d: nat): char
    requires d < 10
  {
    "0123456789"[d]
  }

  /** `String(n)` of a non-negative integer: its decimal digits, without leading zeros. */
  function DecimalString(n: nat): (r: string)
    ensures |r| >= 1 && (r[0] == '0' ==> n == 0)
    ensures forall k :: 0 <= k < |r| ==> '0' <= r[k] <= '9'
    decreases n
  {
    if n < 10 then [Digit(n)] else DecimalString(n / 10) + [Digit(n % 10)]
  }

  /** The number a string of decimal digits denotes. */
  function ParseDecimal(s: string): nat
    requires forall k :: 0 <= k < |s| ==> '0' <= s[k] <= '9'
  {
    if s == [] then 0 else ParseDecimal(s[..|s| - 1]) * 10 + (s[|s| - 1] as int - '0' as int)
  }

  /** Reading back the digits gives the number: the chapter number in a default title is recoverable. */
  lemma {:induction false} ParseDecimalString(n: nat)
    ensures ParseDecimal(DecimalString(n)) == n
    decreases n
  {
    var s := DecimalString(n);
    DigitValue(n % 10);
    if n >= 10 {
      ParseDecimalString(n / 10);
      assert s[..|s| - 1] == DecimalString(n / 10);
      assert ParseDecimal(s) == (n / 10) * 10 + n % 10;
    } else {
      assert s[..0] == [];
    }
  }

  lemma DigitValue(d: nat)
    requires d < 10
    ensures Digit(d) as int - '0' as int == d
  {
  }

  /** `makeDefaultChapter(n)` (lines 617-625), with the generated id and the time as parameters. */
  function MakeDefaultChapter(n: nat, id: Id, now: string): Chapter {
    Chapter(id, "Chapter " + DecimalString(n), Some(Delta(Some([OpObject(StringInsert("\n"))]))), now, now)
  }

  /** The default title is `Chapter ` followed by the decimal digits of `n`, which read back as `n`. */
  lemma DefaultChapterTitle(n: nat, id: Id, now: string)
    ensures var t := MakeDefaultChapter(n, id, now).title;
      |t| > 8 && t[..8] == "Chapter " && (forall k :: 8 <= k < |t| ==> '0' <= t[k] <= '9') && ParseDecimal(t[8..]) == n
  {
    var digits := DecimalString(n);
    ParseDecimalString(n);
    assert ("Chapter " + digits)[8..] == digits;
  }

  /** The default content is a single newline, whatever the number. */
  lemma DefaultChapterText(n: nat, id: Id, now: string)
    ensures PlainTextFromDelta(MakeDefaultChapter(n, id, now).delta) == "\n"
  {
    assert JoinInserts([OpObject(StringInsert("\n"))]) == Some("\n" + "");
  }

  // --------------------------------------------------------------- the totals

  /** The counts of one chapter: `countWordsChars(plainTextFromDelta(ch.delta))`. */
  function ChapterCounts(ch: Chapter): Counts {
    CountWordsChars(PlainTextFromDelta(ch.delta))
  }

  function Add(x: Counts, y: Counts): Counts {
    Counts(x.words + y.words, x.chars + y.chars)
  }

  /** The counts `f` gives the items of `xs`, summed in order. */
  function Sum<T>(xs: seq<T>, f: T -> Counts): Counts {
    if xs == [] then Counts(0, 0) else Add(Sum(xs[..|xs| - 1], f), f(xs[|xs| - 1]))
  }

  /** The totals of `projectTotals`: the chapter counts of the draft, summed in order. */
  function Totals(cs: seq<Chapter>): Counts {
    Sum(cs, ChapterCounts)
  }

  /** Counts as `countWordsChars` produces them: no more words than characters, and no words exactly when no characters. */
  predicate Consistent(x: Counts) {
    x.words <= x.chars && (x.words == 0 <==> x.chars == 0)
  }

  /** The sums over two runs add up. */
  lemma {:induction false} SumAppend<T>(a: seq<T>, b: seq<T>, f: T -> Counts)
    ensures Sum(a + b, f) == Add(Sum(a, f), Sum(b, f))
    decreases |b|
  {
    if b == [] {
      assert a + b == a;
    } else {
      var b' := b[..|b| - 1];
      assert (a + b)[..|a + b| - 1] == a + b';
      SumAppend(a, b', f);
    }
  }

  /** Taking one item out of a run takes exactly its counts off the sum. */
  lemma SumRemoveAt<T>(xs: seq<T>, i: nat, f: T -> Counts)
    requires i < |xs|
    ensures Add(Sum(RemoveAt(xs, i), f), f(xs[i])) == Sum(xs, f)
  {
    var a, x, b := xs[..i], xs[i], xs[i + 1..];
    SumAppend(a, b, f);
    SumAppend([x], b, f);
    SumSingle(x, f);
    SumAppend(a, [x] + b, f);
    calc {
      Sum(xs, f);
      == { SplitAt(xs, i); }
      Sum(a + ([x] + b), f);
      ==
      Add(Sum(a, f), Add(f(x), Sum(b, f)));
      ==
      Add(Sum(a + b, f), f(x));
      == { assert RemoveAt(xs, i) == a + b; }
      Add(Sum(RemoveAt(xs, i), f), f(x));
    }
  }

  /** An item with no words and no characters leaves the sum as it was. */
  lemma SumSnocZero<T>(xs: seq<T>, x: T, f: T -> Counts)
    requires f(x) == Counts(0, 0)
    ensures Sum(xs + [x], f) == Sum(xs, f)
  {
    assert (xs + [x])[..|xs|] == xs;
  }

  lemma SumSingle<T>(x: T, f: T -> Counts)
    ensures Sum([x], f) == f(x)
  {
    assert [x][..0] == [];
  }

  /** Sums of consistent counts are consistent. */
  lemma {:induction false} SumConsistent<T>(xs: seq<T>, f: T -> Counts)
    requires forall k :: 0 <= k < |xs| ==> Consistent(f(xs[k]))
    ensures Consistent(Sum(xs, f))
  {
    if xs != [] {
      SumConsistent(xs[..|xs| - 1], f);
    }
  }

  /** A project never has more words than characters, and has no words exactly when it has no characters. */
  lemma TotalsConsistent(cs: seq<Chapter>)
    ensures Consistent(Totals(cs))
  {
    forall k | 0 <= k < |cs| ensures Consistent(ChapterCounts(cs[k])) {
      CountWordsCharsSpec(PlainTextFromDelta(cs[k].delta));
    }
    SumConsistent(cs, ChapterCounts);
  }

  /** Removing a chapter takes exactly its own counts off the totals. */
  lemma RemoveChapterTotals(cs: seq<Chapter>, i: nat)
    requires i < |cs|
    ensures Add(Totals(RemoveAt(cs, i)), ChapterCounts(cs[i])) == Totals(cs)
  {
    SumRemoveAt(cs, i, ChapterCounts);
  }

  /** The default chapter has no words and no characters. */
  lemma DefaultChapterCounts(n: nat, id: Id, now: string)
    ensures ChapterCounts(MakeDefaultChapter(n, id, now)) == Counts(0, 0)
  {
    DefaultChapterText(n, id, now);
    DefaultTextCounts();
  }

  /** A new default chapter adds nothing to the totals. */
  lemma DefaultChapterAddsNothing(cs: seq<Chapter>, n: nat, id: Id, now: string)
    ensures Totals(cs + [MakeDefaultChapter(n, id, now)]) == Totals(cs)
  {
    DefaultChapterCounts(n, id, now);
    SumSnocZero(cs, MakeDefaultChapter(n, id, now), ChapterCounts);
  }

  // ----------------------------------------------------------- the annotations

  /** `getDocComments(docId)`: the stored list, or none. */
  function Lookup(m: map<Id, seq<Comment>>, docId: Id): seq<Comment> {
    if docId in m then m[docId] else []
  }

  /** `list.filter(x => x.id !== commentId)`. */
  function RemoveById(xs: seq<Comment>, commentId: Id): (r: seq<Comment>)
    ensures |r| <= |xs|
    ensures forall c :: c in r <==> c in xs && c.id != commentId
  {
    if xs == [] then []
    else
      var rest := RemoveById(xs[1..], commentId);
      assert forall c :: c in xs <==> c == xs[0] || c in xs[1..];
      if xs[0].id == commentId then rest else [xs[0]] + rest
  }

  /** The number of entries of `xs` with id `commentId`. */
  function CountId(xs: seq<Comment>, commentId: Id): nat {
    if xs == [] then 0 else (if xs[0].id == commentId then 1 else 0) + CountId(xs[1..], commentId)
  }

  /** Deleting by id removes exactly the entries with that id. */
  lemma {:induction false} RemoveByIdCount(xs: seq<Comment>, commentId: Id)
    ensures |RemoveById(xs, commentId)| + CountId(xs, commentId) == |xs|
    ensures CountId(RemoveById(xs, commentId), commentId) == 0
  {
    if xs != [] {
      RemoveByIdCount(xs[1..], commentId);
      var rest := RemoveById(xs[1..], commentId);
      assert ([xs[0]] + rest)[1..] == rest;
    }
  }

  /** Deleting by id works piecewise, so the kept entries stay in their order. */
  lemma {:induction false} RemoveByIdAppend(xs: seq<Comment>, ys: seq<Comment>, commentId: Id)
    ensures RemoveById(xs + ys, commentId) == RemoveById(xs, commentId) + RemoveById(ys, commentId)
  {
    if xs == [] {
      assert xs + ys == ys;
    } else {
      assert (xs + ys)[1..] == xs[1..] + ys;
      RemoveByIdAppend(xs[1..], ys, commentId);
    }
  }

  /** Entries with other ids are kept as they are. */
  lemma {:induction false} RemoveByIdAbsent(xs: seq<Comment>, commentId: Id)
    requires CountId(xs, commentId) == 0
    ensures RemoveById(xs, commentId) == xs
  {
    if xs != [] {
      RemoveByIdAbsent(xs[1..], commentId);
      assert xs == [xs[0]] + xs[1..];
    }
  }

  // ----------------------------------------------------------- the workspace

  /** The state of the workbench (lines 68-83): section, selection, draft, library and annotations. */
  class Workspace {
    var section: Section
    var selectedId: Option<Id>
    var draft: seq<Chapter>
    var library: seq<Card>
    var comments: map<Id, seq<Comment>>

    /** The initial state: the draft section, nothing selected, nothing stored. */
    constructor ()
      ensures section == Draft && selectedId == None
      ensures draft == [] && library == [] && comments == map[]
    {
      section := Draft;
      selectedId := None;
      draft := [];
      library := [];
      comments := map[];
    }

    /** The ids of `getCurrentArray()` (lines 1170-1174): the draft, the library, or nothing in the settings. */
    function CurrentIds(): seq<Id>
      reads this
    {
      match section
      case Draft => ChapterIds(draft)
      case Library => CardIds(library)
      case Settings => []
    }

    /** `getSelectedItem()` (lines 1183-1185): the index of the first item of the current array with the selected id. */
    function SelectedIndex(): (r: Option<nat>)
      reads this
      ensures r.Some? ==> selectedId.Some? && r.value < |CurrentIds()| && CurrentIds()[r.value] == selectedId.value
      ensures r.Some? ==> forall j :: 0 <= j < r.value ==> CurrentIds()[j] != selectedId.value
      ensures r.None? <==> selectedId.None? || selectedId.value !in CurrentIds()
    {
      if selectedId.None? then None else FindId(CurrentIds(), selectedId.value)
    }

    /** The chapter `state.draft.find(d => d.id === state.selectedId)`, whatever the section. */
    function SelectedChapter(): (r: Option<nat>)
      reads this
      ensures r.Some? ==> selectedId.Some? && r.value < |draft| && draft[r.value].id == selectedId.value
      ensures r.None? <==> selectedId.None? || selectedId.value !in ChapterIds(draft)
    {
      if selectedId.None? then None else FindId(ChapterIds(draft), selectedId.value)
    }

    /** Something is selected exactly when the current array is not empty, and then an item of it. */
    predicate SelectionValid()
      reads this
    {
      if CurrentIds() == [] then selectedId == None else selectedId.Some? && selectedId.value in CurrentIds()
    }

    /** `ensureSelection()` (lines 1175-1182): keep a selection that names an item, otherwise select the first item or nothing. */
    method EnsureSelection()
      modifies this`selectedId
      ensures SelectionValid()
      ensures old(SelectionValid()) ==> selectedId == old(selectedId)
      ensures selectedId == if CurrentIds() == [] then None
        else if old(selectedId).Some? && old(selectedId).value in CurrentIds() then old(selectedId)
        else Some(CurrentIds()[0])
    {
      var ids := CurrentIds();
      if |ids| == 0 {
        selectedId := None;
        return;
      }
      if selectedId.None? || selectedId.value !in ids {
        selectedId := Some(ids[0]);
      }
    }

    /** `newChapter()` (lines 627-635): append `Chapter <n>` for the next number and select it. */
    method NewChapter(newId: Id, now: string)
      modifies this`draft, this`selectedId
      ensures draft == old(draft) + [MakeDefaultChapter(|old(draft)| + 1, newId, now)]
      ensures selectedId == Some(newId)
      ensures Totals(draft) == Totals(old(draft))
      ensures section == Draft && newId !in ChapterIds(old(draft)) ==> SelectedIndex() == Some(|old(draft)|)
    {
      var doc := MakeDefaultChapter(|draft| + 1, newId, now);
      DefaultChapterAddsNothing(draft, |draft| + 1, newId, now);
      ChapterIdsSnoc(draft, doc);
      if newId !in ChapterIds(draft) {
        FindIdSnoc(ChapterIds(draft), newId);
      }
      draft := draft + [doc];
      selectedId := Some(newId);
    }

    /**
     * `deleteSelected()` (lines 1143-1167): once confirmed, remove the selected item from the
     * current array, drop a deleted chapter's annotations, and repair the selection.
     */
    method DeleteSelected(confirmed: bool)
      modifies this`draft, this`library, this`comments, this`selectedId
      ensures old(SelectedIndex()).None? || !confirmed ==>
        draft == old(draft) && library == old(library) && comments == old(comments) && selectedId == old(selectedId)
      ensures old(SelectedIndex()).Some? && confirmed ==> SelectionValid()
      ensures old(SelectedIndex()).Some? && confirmed ==>
        selectedId == if CurrentIds() == [] then None
          else if old(selectedId).value in CurrentIds() then old(selectedId)
          else Some(CurrentIds()[0])
      ensures old(SelectedIndex()).Some? && confirmed && section == Draft ==>
        draft == RemoveAt(old(draft), old(SelectedIndex()).value) && library == old(library) &&
        comments == old(comments) - {old(selectedId).value}
      ensures old(SelectedIndex()).Some? && confirmed && section == Library ==>
        library == RemoveAt(old(library), old(SelectedIndex()).value) && draft == old(draft) && comments == old(comments)
    {
      var i := SelectedIndex();
      if i.None? || !confirmed {
        return;
      }
      var id := selectedId.value;
      if section == Draft {
        draft := RemoveAt(draft, i.value);
        comments := comments - {id};
      } else {
        library := RemoveAt(library, i.value);
      }
      EnsureSelection();
    }

    /** `getDocComments(docId)` (lines 683-685). */
    function DocComments(docId: Id): seq<Comment>
      reads this
    {
      Lookup(comments, docId)
    }

    /** `setDocComments(docId, list)` (lines 686-688). */
    method SetDocComments(docId: Id, list: seq<Comment>)
      modifies this`comments
      ensures comments == old(comments)[docId := list]
      ensures DocComments(docId) == list
      ensures forall d :: d != docId ==> DocComments(d) == old(DocComments(d))
    {
      comments := comments[docId := list];
    }

    /**
     * `saveModalComment()` (lines 767-784): for the selected chapter, a comment whose trimmed
     * text is not empty goes first in its list, its range is highlighted in the editor, and the
     * annotation panel is redrawn, which highlights every range of the chapter's list again
     * (`renderComments`, lines 690-726, and `applyCommentHighlights`, lines 728-735).
     */
    method SaveModalComment(index: int, length: int, raw: string, newId: Id, now: string, editor: Editor)
      requires editor.Valid()
      modifies this`comments, editor.formats
      ensures editor.Valid()
      ensures var d := old(SelectedChapter());
        if d.None? || Trim(raw) == [] then
          comments == old(comments) && editor.formats[..] == old(editor.formats[..])
        else
          var docId := old(draft[d.value].id);
          DocComments(docId) == [Comment(newId, index, length, Trim(raw), now)] + old(DocComments(docId)) &&
          (forall e :: e != docId ==> DocComments(e) == old(DocComments(e))) &&
          editor.formats[..] == Highlights(Written(old(editor.formats[..]), index, length, Background), DocComments(docId)) &&
          editor.formats[..] == Highlights(old(editor.formats[..]), DocComments(docId))
    {
      var d := SelectedChapter();
      if d.None? {
        return;
      }
      var text := Trim(raw);
      if |text| == 0 {
        return;
      }
      var docId := draft[d.value].id;
      var list := DocComments(docId);
      var c := Comment(newId, index, length, text, now);
      SetDocComments(docId, [c] + list);
      editor.FormatText(index, length, Background);
      editor.ApplyCommentHighlights(DocComments(docId));
      HighlightAbsorbsWrite(old(editor.formats[..]), c, list);
    }

    /**
     * The delete button of an annotation (lines 714-720): once confirmed, the chapter's list loses
     * the entries with that id, and the panel of the selected chapter is redrawn, which highlights
     * every range still in its list (lines 690-726, 728-735).
     */
    method DeleteComment(docId: Id, commentId: Id, confirmed: bool, editor: Editor)
      requires editor.Valid()
      modifies this`comments, editor.formats
      ensures editor.Valid()
      ensures !confirmed ==> comments == old(comments) && editor.formats[..] == old(editor.formats[..])
      ensures confirmed ==> comments == old(comments)[docId := RemoveById(old(DocComments(docId)), commentId)]
      ensures confirmed ==> var d := SelectedChapter();
        if d.None? then editor.formats[..] == old(editor.formats[..])
        else editor.formats[..] == Highlights(old(editor.formats[..]), DocComments(draft[d.value].id))
    {
      if !confirmed {
        return;
      }
      var next := RemoveById(DocComments(docId), commentId);
      SetDocComments(docId, next);
      var d := SelectedChapter();
      if d.Some? {
        editor.ApplyCommentHighlights(DocComments(draft[d.value].id));
      }
    }

    /** `clearAllComments()` (lines 786-793): once confirmed, the selected chapter's list becomes empty. */
    method ClearAllComments(confirmed: bool)
      modifies this`comments
      ensures var d := old(SelectedChapter());
        if d.None? || !confirmed then comments == old(comments)
        else comments == old(comments)[old(draft[d.value].id) := []]
    {
      var d := SelectedChapter();
      if d.None? || !confirmed {
        return;
      }
      SetDocComments(draft[d.value].id, []);
    }

    /** `projectTotals()` (lines 57-65): the word and character counts summed over the draft. */
    method ProjectTotals() returns (words: nat, chars: nat)
      ensures Counts(words, chars) == Totals(draft)
      ensures Consistent(Counts(words, chars))
    {
      words, chars := 0, 0;
      for i := 0 to |draft|
        invariant Counts(words, chars) == Totals(draft[..i])
      {
        var x := CountWordsChars(PlainTextFromDelta(draft[i].delta));
        assert draft[..i + 1][..i] == draft[..i];
        words, chars := words + x.words, chars + x.chars;
      }
      assert draft[..|draft|] == draft;
      TotalsConsistent(draft);
    }
  }
}
