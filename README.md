# BookStudio core in Dafny

BookStudio is a browser-local writing workbench. It has a draft made of chapters, a library of
world-building cards, and annotations on chapters. This project models the deterministic core of
its single script `app.js` and proves properties of that model:

- **The card-link pass** (`refreshCardLinks`). The editor document is its plain text plus one
  format record per position (`cardlink` id, annotation `background`), held in an array that
  `formatText` updates in place. The pass does four things:
  - it builds the card index: cards whose trimmed title has at least two characters, keyed by that trimmed title;
  - it clears every `cardlink`;
  - it stable-sorts the index by title length, longest first;
  - for each card, it tags every match of `\b<escaped title>\b` under the `gi` flags.

  Matching is modelled the way JavaScript does it:
  - `exec` returns the leftmost match at or after `lastIndex`;
  - `\b` is the ASCII word boundary;
  - case-insensitivity is ASCII case folding.
- **Text projection and counting**: `plainTextFromDelta`, `countWordsChars`, `projectTotals`, and
  the default chapter of `makeDefaultChapter`.
- **The annotation store**, a map from chapter id to comments. It is read by `getDocComments`,
  written by `setDocComments`, and changed by `saveModalComment`, the per-comment delete,
  `clearAllComments` and the cascade in `deleteSelected`. `applyCommentHighlights` reads it to
  highlight every stored range of the selected chapter in the editor.
- **Selection and collections**: `getCurrentArray`, `getSelectedItem`, `ensureSelection`,
  `newChapter` and `deleteSelected`. Where the script defines a function twice, the later
  definition is the one in force, so that is the one modelled.
- **String helpers**: `escapeHtml`, `safeFilename`, `splitComma` and `escapeRegExp`. Each has a
  partner: an inverse, idempotence, or a characterisation of its results.

Files:
- `wrappers.dfy`: `Option`.
- `text.dfy`: whitespace, trim, ASCII case, word characters and `filter(Boolean)` on strings.
- `strings.dfy`: the helpers.
- `counting.dfy`: deltas and counts.
- `entities.dfy`: records.
- `matcher.dfy`: card index, sort, `exec`, the winner of a position.
- `editor.dfy`: the `Editor` class and the pass.
- `workspace.dfy`: the `Workspace` class holding the state.

**Precedence on overlap follows the code, not the design's stated intent.** The design describes
longest-title-first precedence, where the first accepted span wins and a shorter title never
re-tags part of a longer one. The code does something else. `formatText` overwrites, and shorter
titles are processed later. So on every position covered by matches of several cards, the card
processed last wins:
- the covering card with the shortest title wins;
- among equally long titles, the one later in library order wins, because the sort is stable.

With cards "Stone" and "Evelyn Stone" and the text "Evelyn Stone said", positions 7-11 end up
tagged with "Stone"'s id. The model follows the code. `CardLinks.PassPicksWinner` states this
outcome for every position, over the index that `CardLinks.BuildIndexAppend` shows is in library
order; `CardLinks.PassTieGoesToLaterCard` states the tie rule for two cards.

## Model

| member | source | states |
|---|---|---|
| Text.TrimEnd | app.js:52 | `replace(/\s+$/, "")` leaves a prefix that does not end in whitespace and drops only whitespace |
| Text.TrimStart | app.js:53 | dropping leading whitespace leaves a suffix that does not start with whitespace, and only whitespace is dropped |
| Text.Trim | app.js:33-35 | `trim()` gives a string with no whitespace at either end; it is empty exactly when the input is all whitespace |
| Text.TrimOfTrimmed | app.js:33-35 | trimming is the identity on a string that is already trimmed |
| Text.TrimLeadingSpace | app.js:33-35 | a leading space does not change the trim of a string that is not all whitespace |
| Text.TrimEndSplit | app.js:52 | stripping trailing whitespace from a word followed by whitespace gives back the word |
| Text.NonEmpty | app.js:34 | `filter(Boolean)` keeps only non-empty entries of its input; `NonEmptySingle` and `NonEmptyAppend` state that it keeps every non-empty entry, in order |
| Text.NonEmptySingle | app.js:34 | on one entry the filter keeps it exactly when it is non-empty |
| Text.NonEmptyAppend | app.js:34 | the filter works entry by entry: `filter(a ++ b)` is `filter(a) ++ filter(b)`, so the kept entries keep their order |
| Text.NonEmptyOfNonEmpty | app.js:34 | `filter(Boolean)` is the identity on a list of non-empty strings |
| StringHelpers.EscapeHtml | app.js:27-29 | the escaped text contains none of `< > " '` and is at least as long as the input |
| StringHelpers.UnescapeEntity | app.js:28 | each of the five replacements, and every other character, decodes back to the character it came from |
| StringHelpers.UnescapeEscapeHtml | app.js:27-29 | decoding the five entities inverts `escapeHtml`, so escaping loses nothing |
| StringHelpers.ReplaceDisallowedRuns | app.js:31 | the first replace, `/[^a-z0-9_\-]+/gi` → `_`; what it does is stated block by block by `ReplaceAppend`, `ReplaceAllowed` and `ReplaceDisallowedRun`, and its alphabet by `ReplaceAlphabet` |
| StringHelpers.ReplaceAlphabet | app.js:31 | the first replace leaves only `[A-Za-z0-9_-]` |
| StringHelpers.ReplaceAppend | app.js:31 | the replace works block by block: the rest of the text is processed knowing whether what came before ended in a disallowed character |
| StringHelpers.ReplaceUnfold | app.js:31 | one character: an allowed one is kept, a disallowed one becomes `_` when it starts a run and nothing when it continues one |
| StringHelpers.ReplaceAllowed | app.js:31 | a block of allowed characters is kept as it is |
| StringHelpers.ReplaceDisallowedRun | app.js:31 | a whole run of disallowed characters becomes exactly one `_` |
| StringHelpers.CollapseUnderscores | app.js:31 | the collapse `_+` → `_`; stated by `CollapseAlphabet`, `CollapseNoDouble`, `CollapseAppend`, `CollapseRun`, `CollapseSingle` and `CollapseKeepsOthers` |
| StringHelpers.CollapseAlphabet | app.js:31 | the collapse keeps the allowed alphabet |
| StringHelpers.CollapseNoDouble | app.js:31 | after the collapse no two underscores are adjacent |
| StringHelpers.CollapseAppend | app.js:31 | the collapse works block by block: the rest is processed knowing whether what came before ended in `_` |
| StringHelpers.CollapseUnfold | app.js:31 | one character: anything but `_` is kept, a `_` is kept when it starts a run and dropped when it continues one |
| StringHelpers.CollapseRun | app.js:31 | a whole run of underscores becomes exactly one `_` |
| StringHelpers.OmitUnderscores | app.js:31 | the text without its underscores contains no `_` |
| StringHelpers.OmitUnderscoresAppend | app.js:31 | removing underscores works block by block |
| StringHelpers.CollapseKeepsOthers | app.js:31 | the collapse touches only underscores: without them, its result is the input |
| StringHelpers.CollapsedKeeps | app.js:31 | the two replaces together leave only `[A-Za-z0-9_-]` and no `__` |
| StringHelpers.DropLeadingUnderscores | app.js:31 | `^_+` removal drops a prefix made only of `_` and leaves a suffix that does not start with `_` |
| StringHelpers.DropTrailingUnderscores | app.js:31 | `_+$` removal drops a suffix made only of `_` and leaves a prefix that does not end with `_` |
| StringHelpers.LowerAll | app.js:31 | `toLowerCase` maps each character to its ASCII lower case and keeps the length |
| StringHelpers.StripKeeps | app.js:31 | stripping edge underscores keeps the alphabet and the no-double-underscore shape, and leaves no `_` at either end |
| StringHelpers.LowerKeeps | app.js:31 | lower-casing such a string gives a safe name: lower-case letters, digits, `_` and `-`, no `_` at the ends, no `__` |
| StringHelpers.SafeFilename | app.js:30-32 | `safeFilename`; its results are stated by `SafeFilenameIsSafe`, `SafeFilenameOfSafe`, `SafeFilenameOfWords` and `DefaultProjectFilename` |
| StringHelpers.SafeFilenameIsSafe | app.js:30-32 | every `safeFilename` result is a non-empty safe name, with `"export"` as the fallback |
| StringHelpers.CollapseSingle | app.js:31 | the collapse does nothing to a string without `__` |
| StringHelpers.SafeFilenameOfSafe | app.js:30-32 | a safe name is its own `safeFilename` |
| StringHelpers.SafeFilenameIdempotent | app.js:30-32 | `safeFilename(safeFilename(x)) == safeFilename(x)` |
| StringHelpers.SafeFilenameOfWords | app.js:30-32 | two words of letters, digits and `-` separated by a run of other characters export as the lower-cased words joined by one `_` |
| StringHelpers.CollapsedOfWords | app.js:31 | the two replaces turn such a name into the words joined by one `_` |
| StringHelpers.LowerAllAppend | app.js:31 | lower-casing works character by character |
| StringHelpers.CapitalisedWord | app.js:31 | a capitalised word lower-cases to its lower-case first letter followed by the rest |
| StringHelpers.DefaultProjectFilename | app.js:70 | the default project name `"My Novel"` gives the file name `"my_novel"` used by the export |
| StringHelpers.MyNovelWords | app.js:70 | `"My"` and `"Novel"` are words that lower-case and join to `"my_novel"` |
| StringHelpers.SplitOnComma | app.js:34 | `split(",")` always gives at least one piece; its pieces are stated by `SplitOnCommaCons`, `SplitOnCommaPrefix` and `SplitOnCommaEmpty` |
| StringHelpers.TrimAll | app.js:34 | `map(s => s.trim())`; stated by `TrimAllSpaced` and `TrimAllEmpty` |
| StringHelpers.Join | app.js:245 | `join(sep)`; the round trip with `splitComma` is `SplitCommaOfJoin` |
| StringHelpers.IndexOfComma | app.js:34 | the index found is a comma with no comma before it |
| StringHelpers.CommaIndexUnique | app.js:34 | the first comma is unique: any comma with no comma before it is the one found |
| StringHelpers.SplitOnCommaCons | app.js:34 | `split(",")` of `x + "," + rest`, with `x` comma-free, is `x` followed by the split of `rest` |
| StringHelpers.SplitOnCommaPrefix | app.js:34 | a comma-free prefix joins the first piece of the split and leaves the other pieces alone |
| StringHelpers.SplitComma | app.js:33-35 | every entry of `splitComma` is non-empty and trimmed |
| StringHelpers.SplitJoinSpaced | app.js:34 | splitting a `", "` join of comma-free entries gives the first entry, then each other entry behind one space |
| StringHelpers.SplitCommaOfJoin | app.js:33-35 | `splitComma(xs.join(", ")) == xs` for every list of non-empty, trimmed, comma-free entries |
| StringHelpers.SplitOnCommaPieces | app.js:34 | no piece of `split(",")` contains a comma |
| StringHelpers.TrimCommaFree | app.js:34 | trimming a comma-free string leaves it comma-free |
| StringHelpers.SplitCommaEntries | app.js:33-35 | every entry of `splitComma` is non-empty, trimmed and comma-free |
| StringHelpers.SplitCommaRoundTrip | app.js:33-35 | the categories the settings form shows with `join(", ")` (line 245) read back unchanged with `splitComma` (line 1102): `splitComma(splitComma(s).join(", ")) == splitComma(s)` |
| StringHelpers.SplitCommaEmpty | app.js:33-35 | the empty string splits to the empty list |
| StringHelpers.TrimSpacedEntry | app.js:34 | trimming `" " + x` gives back a trimmed entry `x` |
| StringHelpers.EscapeRegExp | app.js:36-38 | the pattern is never shorter than the title; `EscapeRegExpChar` and `EscapeRegExpAppend` state it exactly: each special character gets one backslash, every other character is left as it is |
| StringHelpers.EscapeRegExpChar | app.js:37 | a special character becomes `\` followed by it; any other character is left unchanged |
| StringHelpers.EscapeRegExpAppend | app.js:37 | escaping works character by character: the escape of `a ++ b` is the escape of `a` followed by that of `b` |
| StringHelpers.EscapeIsLiteral | app.js:36-38 | the escaped title is a literal pattern: its special characters all come escaped, and a backslash only ever escapes a special character |
| StringHelpers.PatternLiteralOfEscape | app.js:36-38 | the escaped title is a literal pattern, and the string it matches is the title itself |
| Counting.JoinInserts | app.js:48 | the map/join fails (the `catch` path) exactly when an entry of `ops` is `null` |
| Counting.PlainTextFromDelta | app.js:45-50 | a missing delta or missing `ops` gives `""` |
| Counting.PlainTextOfString | app.js:45-50 | a delta with one string insert gives back exactly that string |
| Counting.JoinInsertsAppend | app.js:48 | the join of a concatenation of op lists is the concatenation of the joins |
| Counting.PlainTextAppend | app.js:45-50 | `plainTextFromDelta` distributes over concatenation of op lists |
| Counting.PlainTextSkipsEmbeds | app.js:48 | a non-string insert contributes nothing to the plain text |
| Counting.SplitOnWhitespace | app.js:53 | `split(/\s+/)` has a first piece, empty exactly when the text is empty or starts with whitespace |
| Counting.StartsAfterLeadingSpace | app.js:53 | leading whitespace does not change the number of word starts |
| Counting.StartsAfterAppend | app.js:53 | word starts of a concatenation add up, the second part starting after the first part's last character |
| Counting.CountWordsChars | app.js:51-56 | `countWordsChars`; its counts are stated by `CountWordsCharsSpec` and `DefaultTextCounts` |
| Counting.PiecesCountWords | app.js:53 | the number of non-empty pieces of `split(/\s+/)` equals the number of word starts |
| Counting.CountWordsCharsSpec | app.js:51-56 | `chars` is the length without trailing whitespace; `words` is the number of word starts; `words == 0` iff `chars == 0`; `words <= chars` |
| Counting.DefaultTextCounts | app.js:51-56 | the default chapter text `"\n"` counts as zero words and zero characters |
| CardLinks.BuildIndex | app.js:560-562 | the index has no more entries than the library and every title in it has at least two characters; its order is stated by `BuildIndexAppend` and `BuildIndexSingle` |
| CardLinks.BuildIndexSingle | app.js:560-562 | one card gives its entry (id, trimmed title) when eligible and nothing otherwise |
| CardLinks.BuildIndexAppend | app.js:560-562 | the index is built card by card in library order: the index of `a ++ b` is that of `a` followed by that of `b` |
| CardLinks.EligibleCardIndexed | app.js:560-562 | every card whose trimmed title has two or more characters is in the index, keyed by its trimmed title |
| CardLinks.IndexedCardSource | app.js:560-562 | every index entry comes from an eligible library card, with that card's id and trimmed title |
| CardLinks.BuildIndexEmpty | app.js:567 | with no eligible card the index is empty |
| CardLinks.InsertByLength | app.js:569 | one insertion step of the stable sort; stated by `InsertByLengthSorted` and `InsertByLengthPerm` |
| CardLinks.SortByLength | app.js:569 | the sort; stated by `SortByLengthSorted`, `SortByLengthPerm` and `SortByLengthStable` |
| CardLinks.InsertByLengthSorted | app.js:569 | inserting into a list sorted by descending title length keeps it sorted |
| CardLinks.InsertByLengthPerm | app.js:569 | insertion adds exactly the inserted entry |
| CardLinks.SortByLengthSorted | app.js:569 | the sort orders the index by descending title length |
| CardLinks.SortByLengthPerm | app.js:569 | the sort is a permutation of the index |
| CardLinks.SortByLengthStable | app.js:569 | the sort is stable: entries of equal title length keep their library order |
| CardLinks.SortKeepsTitleLengths | app.js:569 | every sorted title still has at least two characters |
| CardLinks.Exec | app.js:575 | `exec` finds nothing before `lastIndex` |
| CardLinks.ExecFinds | app.js:573-575 | what `exec` returns is a match: case-insensitive equal to the title, with `\b` at both ends |
| CardLinks.ExecFits | app.js:575-578 | a match lies inside the text |
| CardLinks.ExecLeftmost | app.js:575 | no match lies between `lastIndex` and the one returned, and none at all after `lastIndex` when nothing is returned |
| CardLinks.Boundary | app.js:573 | `\b`: a word character on exactly one side of the position; stated by `NoMatchBeforeWordChar` and `AnnNotInAnna` |
| CardLinks.MatchAt | app.js:573 | `\b<title>\b` under `i` matches at a position; `ExecFinds` and `ExecLeftmost` tie `exec` to it |
| CardLinks.Matches | app.js:575-579 | the starts the `exec` loop visits; stated by `MatchesSound`, `MatchesAfter`, `MatchesDisjoint`, `MatchesAtLeast` and `MatchStartIff` |
| CardLinks.MatchesSound | app.js:575-579 | every match start the loop visits is a match |
| CardLinks.MatchesAfter | app.js:575-579 | the loop visits no position before where it started |
| CardLinks.MatchesDisjoint | app.js:575-579 | the matches of one title are in increasing order and do not overlap |
| CardLinks.MatchesAtLeast | app.js:575-579 | after a match the loop goes on from its end |
| CardLinks.MatchStartIff | app.js:573-577 | `p` is a match start exactly when the title matches at `p` and no earlier match of the same title covers `p` |
| CardLinks.MatchStartHead | app.js:573-577 | inside the first match, only its start is a match start |
| CardLinks.NoMatchBeforeWordChar | app.js:573 | a title never matches where the text goes on with a word character |
| CardLinks.AnnNotInAnna | app.js:573-579 | "Ann" has no match at all in "Anna went home": the `exec` loop finds nothing |
| CardLinks.NoAnnAt | app.js:573 | no position of "Anna went home" is a `\bAnn\b` match under `i` |
| CardLinks.ExecWithoutMatch | app.js:575 | where the title matches nowhere from `lastIndex` on, `exec` returns nothing |
| CardLinks.CoveredBySnoc | app.js:578 | one more match covers exactly the positions of its range in addition |
| CardLinks.LastCovering | app.js:572-580 | the card processed last among those whose matches cover a position; none exactly when no card covers it |
| CardLinks.LastCoveringSnoc | app.js:572-580 | processing one more card: it wins wherever it covers, and elsewhere nothing changes |
| CardLinks.Winner | app.js:569-579 | the covering entry with the shortest title, the later one in library order among equal lengths; none exactly when nothing covers the position |
| CardLinks.LastCoveringInsert | app.js:569 | inserting an entry into the sorted order changes the last covering entry only where the new entry covers and its title is shorter |
| CardLinks.LastCoveringSorted | app.js:569-579 | on the sorted index, the last covering entry is the winner on the library-order index |
| CardLinks.LinkAfterPass | app.js:556-581 | the id a pass leaves on a position; stated by `PassPicksWinner` and `PassTagsOnlyLibraryCards` |
| CardLinks.PassPicksWinner | app.js:556-581 | after a pass, each position carries the id of the covering index entry with the shortest title, the later entry among equal lengths (the index is in library order by `BuildIndexAppend`), and no id when no card covers it |
| CardLinks.PassTieGoesToLaterCard | app.js:569-579 | of two eligible cards whose equally long titles cover a position, the one later in the library leaves its id there |
| CardLinks.IndexOfTwo | app.js:560-562 | two eligible cards index as their two entries, in library order |
| CardLinks.WinnerOfTie | app.js:569-579 | between two covering entries of equal title length, the later one wins |
| CardLinks.PassTagsOnlyLibraryCards | app.js:560-579 | a tag always names an eligible card of the current library whose trimmed title matches over that position |
| CardLinks.NoEligibleCardNoTag | app.js:560-567 | with no eligible card, no position is tagged |
| Editing.Apply | app.js:578 | a `cardlink` write sets the link and keeps the highlight; a highlight write keeps the link |
| Editing.PassResult | app.js:556-581 | the pass keeps the document length |
| Editing.PassKeepsBackground | app.js:564-579 | the pass never changes an annotation highlight |
| Editing.PassForgetsOldLinks | app.js:564-565 | the result depends on the old formats only through their highlights, so no tag from an earlier pass or a deleted card survives |
| Editing.PassIdempotent | app.js:556-581 | running the pass twice on the same text and library gives the result of running it once |
| Editing.PassWithoutCardsClears | app.js:564-567 | with no eligible card, a pass in the draft leaves no tag |
| Editing.ClearedIsUnlinked | app.js:565 | the clearing write is the state with no card processed |
| Editing.TagOneMore | app.js:578 | tagging one more match is one more `formatText` over its range |
| Editing.TagStep | app.js:575-579 | one iteration of the match loop: the match fits the text, one more match is tagged, and the loop goes on from its end |
| Editing.LinkOneMore | app.js:572-580 | tagging all matches of one more card gives the state with that card processed last |
| Editing.LinkedIsPass | app.js:564-580 | the state after every sorted card is processed is the pass result |
| Editing.HighlightOneMore | app.js:733 | highlighting one more annotation is one more `formatText` over its range |
| Editing.HighlightAbsorbsWrite | app.js:780-782 | the `formatText` `saveModalComment` does itself is subsumed by the highlight pass that follows over the list holding the new comment |
| Editing.HighlightsIdempotent | app.js:728-735 | a second highlight pass over the same list changes nothing |
| Editing.HighlightsKeep | app.js:728-735 | the pass only adds highlights and never changes links: the highlight of an annotation deleted from the list stays in the editor |
| Editing.Editor.constructor | app.js:493-509 | a fresh editor holds the given text with no link and no highlight anywhere |
| Editing.Editor.FormatText | app.js:578 | `formatText` writes the attribute on the part of the range that lies in the document and nowhere else |
| Editing.Editor.RefreshCardLinks | app.js:556-581 | the formats after the method are the pass result: nothing changes outside the draft |
| Editing.Editor.TagCards | app.js:572-580 | the cards, processed in order, leave on each position the id of the last card whose matches cover it |
| Editing.Editor.TagMatches | app.js:573-579 | the `exec` loop tags exactly the positions covered by the title's matches and leaves the rest alone |
| Editing.Editor.ApplyCommentHighlights | app.js:728-735 | a position ends highlighted when it was highlighted already or some annotation's range covers it; links are unchanged |
| Store.FindId | app.js:1183-1185 | `find` by id: the first item with that id, none exactly when no item has it |
| Store.FindIdSnoc | app.js:627-635 | a new id appended at the end is found at the last index |
| Store.RemoveAt | app.js:1151-1152 | `splice(idx, 1)` drops one item and keeps the others in order |
| Store.RemoveAtPerm | app.js:1151-1152 | the splice removes exactly the selected item |
| Store.MakeDefaultChapter | app.js:617-625 | `makeDefaultChapter`; stated by `DefaultChapterTitle`, `DefaultChapterText` and `DefaultChapterCounts` |
| Store.DecimalString | app.js:620 | the number in a default title is written with decimal digits and no leading zero |
| Store.ParseDecimalString | app.js:620 | reading those digits back gives the number |
| Store.DefaultChapterTitle | app.js:617-625 | the default title is `Chapter ` followed by digits that read back as the chapter number |
| Store.DefaultChapterText | app.js:617-625 | the default chapter's plain text is `"\n"` |
| Store.Totals | app.js:57-65 | the project totals; stated by `SumAppend`, `SumRemoveAt`, `TotalsConsistent` and `ProjectTotals` |
| Store.SumAppend | app.js:57-65 | the totals of two lists of chapters add up |
| Store.SumRemoveAt | app.js:57-65 | removing an item takes away exactly its counts |
| Store.SumConsistent | app.js:57-65 | if every item's words are at most its characters, the same holds for the sum |
| Store.TotalsConsistent | app.js:57-65 | the project totals never count more words than characters |
| Store.RemoveChapterTotals | app.js:1151-1152 | deleting a chapter takes away exactly its counts from the totals |
| Store.DefaultChapterCounts | app.js:617-625 | a default chapter counts zero words and zero characters |
| Store.DefaultChapterAddsNothing | app.js:627-635 | adding a default chapter leaves the totals unchanged |
| Store.Lookup | app.js:683-685 | `state.comments[docId]`, falling back to `[]` when nothing is stored: a chapter without stored annotations has the empty list |
| Store.RemoveById | app.js:716 | the filtered list holds exactly the comments whose id differs |
| Store.RemoveByIdCount | app.js:716 | the filter removes exactly the entries with that id, and none is left |
| Store.RemoveByIdAppend | app.js:716 | the filter works entry by entry: it distributes over concatenation, so order is kept |
| Store.RemoveByIdAbsent | app.js:716 | with no entry of that id, the list is unchanged |
| Store.Workspace.constructor | app.js:68-83 | the initial state: draft section, nothing selected, nothing stored |
| Store.Workspace.CurrentIds | app.js:1170-1174 | the ids of `getCurrentArray()`: the draft, the library, or nothing in the settings; `SelectedIndex` and `SelectionValid` are stated over it |
| Store.Workspace.SelectedIndex | app.js:1183-1185 | `getSelectedItem` gives the first item of the current array with the selected id, none exactly when there is none |
| Store.Workspace.SelectedChapter | app.js:768 | `state.draft.find(d => d.id === state.selectedId)` whatever the section |
| Store.Workspace.EnsureSelection | app.js:1175-1182 | afterwards the selection names an item of the current array, or nothing when it is empty; a valid selection is kept |
| Store.Workspace.NewChapter | app.js:627-635 | appends `Chapter <n+1>` and selects it; the totals do not change, and the new chapter is the selected item |
| Store.Workspace.DeleteSelected | app.js:1143-1167 | once confirmed, the selected item leaves the current array; a deleted chapter's annotations go with it; the selection is kept when its id is still there, else moves to the first item, else to nothing; otherwise nothing changes |
| Store.Workspace.DocComments | app.js:683-685 | `getDocComments`: the stored list of a chapter, empty when none is stored; `SetDocComments` is stated through it |
| Store.Workspace.SetDocComments | app.js:686-688 | the chapter's list becomes the given one, and other chapters' lists are unchanged |
| Store.Workspace.SaveModalComment | app.js:767-784 | a non-blank comment goes first in the selected chapter's list, ahead of the old list in its order; its range is highlighted and then every range of the new list is highlighted again, which ends with the old formats plus the highlights of the new list; a blank comment or no selected chapter changes nothing |
| Store.Workspace.DeleteComment | app.js:714-720 | once confirmed, the chapter's list loses exactly the entries with that id and the selected chapter's ranges are highlighted again; without confirmation nothing changes |
| Store.Workspace.ClearAllComments | app.js:786-793 | once confirmed, the selected chapter's list becomes empty; otherwise nothing changes |
| Store.Workspace.ProjectTotals | app.js:57-65 | the loop sums the counts of every chapter, and the words never exceed the characters |

## Left out

- Quill and the DOM are not modelled: blots, `innerHTML`, listeners, modals, the inspector, and the click-to-card lookup. The editor is reduced to its plain text and one format record per position.
- The `if (!quill) return` guards are not modelled: an editor is always present.
- `getText()` is taken to be the chapter's plain text. Quill's handling of embeds and of the trailing newline is not modelled.
- `debounce`, `saveSoon` and `relinkSoon` are not modelled: they are timers. Only the synchronous pass is modelled.
- The relink that `deleteSelected` triggers at its end is not modelled; it is a separate call of `RefreshCardLinks`.
- Persistence (`localforage`), JSON export and import, and downloads are not modelled: they are I/O.
- `uid()` and `nowISO()` become parameters (`newId`, `now`), because they are random or read the clock. `fmtTime` and `localeCompare` sorting are display only.
- `confirm()` becomes a `confirmed` parameter. `alert()` is not modelled: the branch it ends changes nothing.
- `clearInspectorCard` is not modelled: it is UI state.
- The annotation range is taken as given, as the two integers that `Number(modal.dataset.index / length)` yields. Parsing of the dataset strings is not modelled.
- Annotation ranges are never rebased when the text changes. The model keeps them as stored, as the code does.
- `renderComments` is modelled only by the highlight pass it ends with: `SaveModalComment` and `DeleteComment` run it on the selected chapter's list. The list's DOM and its buttons are not modelled.
- Store.Workspace.ClearAllComments: the redraw that follows it highlights the ranges of a list that is now empty, which changes no format, so the method takes no editor. The highlights already in the text stay, as `HighlightsKeep` states for the pass.
- Case folding is ASCII only. Non-ASCII letters compare as themselves under the `i` flag, and `toLowerCase` is the identity on them.
- A character of the model is a Unicode scalar value, while JavaScript strings are sequences of UTF-16 code units. The model covers text without surrogate code units (characters outside the Basic Multilingual Plane): on such text an astral character counts 2 in `length` in JavaScript and 1 here, so for example a card titled with one emoji is eligible in the script and not in the model.
- The `(x || "")` guards against `null` and `undefined` are not modelled, because strings in the model are never null. The empty string is handled: `safeFilename("")` is `"export"` and `splitComma("")` is empty.
- StringHelpers.EscapeHtml: escaping is stated through its inverse and the absence of `< > " '` in the result. The escaped text can still contain `&`, namely the `&` starting each entity.
- CardLinks.Exec: the contract states only where the search starts. That the result is a match, that it fits the text, and that it is the leftmost one are the separate lemmas `ExecFinds`, `ExecFits` and `ExecLeftmost`.
- Editing.Editor.FormatText: Quill's own clamping and its `try/catch` are modelled as writing the part of the range that lies in the document. A range outside the document writes nothing.
