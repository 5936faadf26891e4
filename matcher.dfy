/**
 * The card-link matcher of `refreshCardLinks`: the card index, its stable
 * longest-first order, the `\b<title>\b` search under the `gi` flags, and which
 * card's id the pass leaves on each position of the text.
 */
module CardLinks {
  import opened Wrappers
  import opened Text
  import opened Entities

  /** A card index entry: the card's id and its trimmed title. */
  datatype Entry = Entry(id: Id, title: string)

  /** A card takes part in linking when its trimmed title has at least two characters. */
  predicate Eligible(c: Card) {
    |Trim(c.title)| >= 2
  }

  /** The card index (lines 560-562): eligible cards in library order, with trimmed titles. */
  function BuildIndex(library: seq<Card>): (r: seq<Entry>)
    ensures |r| <= |library|
    ensures forall e :: e in r ==> |e.title| >= 2
  {
    if library == [] then []
    else
      var c := library[0];
      var rest := BuildIndex(library[1..]);
      if Eligible(c) then [Entry(c.id, Trim(c.title))] + rest else rest
  }

  /** The index of one card: its entry when it is eligible, nothing otherwise. */
  lemma BuildIndexSingle(c: Card)
    ensures BuildIndex([c]) == if Eligible(c) then [Entry(c.id, Trim(c.title))] else []
  {
    assert [c][1..] == [];
  }

  /** The index is built card by card, in library order: the index of `a ++ b` is that of `a`, then that of `b`. */
  lemma {:induction false} BuildIndexAppend(a: seq<Card>, b: seq<Card>)
    ensures BuildIndex(a + b) == BuildIndex(a) + BuildIndex(b)
    decreases |a|
  {
    if a == [] {
      assert a + b == b;
    } else {
      ConsSplit(a, b);
      BuildIndexAppend(a[1..], b);
      if Eligible(a[0]) {
        Assoc([Entry(a[0].id, Trim(a[0].title))], BuildIndex(a[1..]), BuildIndex(b));
      }
    }
  }

  /** Every eligible card is in the index, under its id and trimmed title. */
  lemma {:induction false} EligibleCardIndexed(library: seq<Card>, c: Card)
    requires c in library && Eligible(c)
    ensures Entry(c.id, Trim(c.title)) in BuildIndex(library)
  {
    if c != library[0] {
      InTail(library, c);
      EligibleCardIndexed(library[1..], c);
    }
  }

  lemma InTail<T>(s: seq<T>, x: T)
    requires s != []
    ensures x in s <==> x == s[0] || x in s[1..]
  {
    assert s == [s[0]] + s[1..];
  }

  /** Every index entry comes from an eligible card of the library: `c` is that card. */
  lemma {:induction false} IndexedCardSource(library: seq<Card>, e: Entry) returns (c: Card)
    requires e in BuildIndex(library)
    ensures c in library && Eligible(c) && e == Entry(c.id, Trim(c.title))
  {
    if e in BuildIndex(library[1..]) {
      c := IndexedCardSource(library[1..], e);
      InTail(library, c);
    } else {
      c := library[0];
    }
  }

  /** Without an eligible card the index is empty. */
  lemma {:induction false} BuildIndexEmpty(library: seq<Card>)
    requires forall c :: c in library ==> !Eligible(c)
    ensures BuildIndex(library) == []
  {
    if library != [] {
      assert library[0] in library;
      assert forall c :: c in library[1..] ==> c in library;
      BuildIndexEmpty(library[1..]);
    }
  }

  // ------------------------------------------------------- longest-first order

  predicate SortedByLengthDesc(s: seq<Entry>) {
    forall i, j :: 0 <= i < j < |s| ==> |s[i].title| >= |s[j].title|
  }

  /** Insertion of `x` before the first entry that is not longer: `x` goes ahead of equal lengths that follow it in the input. */
  function InsertByLength(x: Entry, s: seq<Entry>): seq<Entry> {
    if s == [] || |s[0].title| <= |x.title| then [x] + s
    else [s[0]] + InsertByLength(x, s[1..])
  }

  /** `cards.sort((a, b) => b.title.length - a.title.length)`: a stable sort, longest title first. */
  function SortByLength(s: seq<Entry>): seq<Entry> {
    if s == [] then [] else InsertByLength(s[0], SortByLength(s[1..]))
  }

  predicate AllAtMost(s: seq<Entry>, n: nat) {
    forall k :: 0 <= k < |s| ==> |s[k].title| <= n
  }

  lemma SortedTail(s: seq<Entry>)
    requires s != [] && SortedByLengthDesc(s)
    ensures SortedByLengthDesc(s[1..]) && AllAtMost(s[1..], |s[0].title|)
  {
    assert forall k :: 0 <= k < |s| - 1 ==> s[1..][k] == s[k + 1];
  }

  /** Insertion adds no title longer than a bound that `x` and `s` keep. */
  lemma {:induction false} InsertAtMost(x: Entry, s: seq<Entry>, n: nat)
    requires |x.title| <= n && AllAtMost(s, n)
    ensures AllAtMost(InsertByLength(x, s), n)
  {
    if s != [] && |x.title| < |s[0].title| {
      assert forall k :: 0 <= k < |s| - 1 ==> s[1..][k] == s[k + 1];
      InsertAtMost(x, s[1..], n);
    }
  }

  lemma {:induction false} InsertByLengthSorted(x: Entry, s: seq<Entry>)
    requires SortedByLengthDesc(s)
    ensures SortedByLengthDesc(InsertByLength(x, s))
  {
    if s != [] && |x.title| < |s[0].title| {
      SortedTail(s);
      InsertByLengthSorted(x, s[1..]);
      InsertAtMost(x, s[1..], |s[0].title|);
    }
  }

  lemma {:induction false} InsertByLengthPerm(x: Entry, s: seq<Entry>)
    ensures multiset(InsertByLength(x, s)) == multiset(s) + multiset{x}
  {
    if s != [] && |x.title| < |s[0].title| {
      InsertByLengthPerm(x, s[1..]);
      assert s == [s[0]] + s[1..];
    }
  }

  /** The sorted index runs from the longest title to the shortest. */
  lemma {:induction false} SortByLengthSorted(s: seq<Entry>)
    ensures SortedByLengthDesc(SortByLength(s))
  {
    if s != [] {
      SortByLengthSorted(s[1..]);
      InsertByLengthSorted(s[0], SortByLength(s[1..]));
    }
  }

  /** Sorting neither adds nor drops an entry. */
  lemma {:induction false} SortByLengthPerm(s: seq<Entry>)
    ensures multiset(SortByLength(s)) == multiset(s)
  {
    if s != [] {
      SortByLengthPerm(s[1..]);
      InsertByLengthPerm(s[0], SortByLength(s[1..]));
      assert s == [s[0]] + s[1..];
    }
  }

  /** Sorting keeps every title of the index at two characters or more. */
  lemma SortKeepsTitleLengths(es: seq<Entry>)
    requires forall e :: e in es ==> |e.title| >= 2
    ensures forall k :: 0 <= k < |SortByLength(es)| ==> |SortByLength(es)[k].title| >= 2
  {
    var s := SortByLength(es);
    SortByLengthPerm(es);
    forall k | 0 <= k < |s| ensures |s[k].title| >= 2 {
      assert s[k] in multiset(s);
      assert s[k] in es;
    }
  }

  /** The entries whose title has length `n`, in order. */
  function OfLength(s: seq<Entry>, n: nat): seq<Entry> {
    if s == [] then [] else (if |s[0].title| == n then [s[0]] else []) + OfLength(s[1..], n)
  }

  lemma {:induction false} InsertByLengthOfLength(x: Entry, s: seq<Entry>, n: nat)
    ensures OfLength(InsertByLength(x, s), n) == (if |x.title| == n then [x] else []) + OfLength(s, n)
  {
    if s == [] || |s[0].title| <= |x.title| {
      assert ([x] + s)[1..] == s;
    } else {
      InsertByLengthOfLength(x, s[1..], n);
      var rest := InsertByLength(x, s[1..]);
      var t := OfLength(s[1..], n);
      var a := if |s[0].title| == n then [s[0]] else [];
      var b := if |x.title| == n then [x] else [];
      assert ([s[0]] + rest)[1..] == rest;
      assert OfLength(InsertByLength(x, s), n) == a + (b + t);
      assert a == [] || b == [];
      assert a + (b + t) == b + (a + t);
    }
  }

  /** The sort is stable: entries of equal title length keep their library order. */
  lemma {:induction false} SortByLengthStable(s: seq<Entry>, n: nat)
    ensures OfLength(SortByLength(s), n) == OfLength(s, n)
  {
    if s != [] {
      SortByLengthStable(s[1..], n);
      InsertByLengthOfLength(s[0], SortByLength(s[1..]), n);
    }
  }

  // ------------------------------------------------------------------ matching

  /** A word character at position `p`; positions outside the text are not. */
  predicate WordAt(text: string, p: int) {
    0 <= p < |text| && IsWordChar(text[p])
  }

  /** `\b` holds at `p`. */
  predicate Boundary(text: string, p: int) {
    WordAt(text, p - 1) != WordAt(text, p)
  }

  /** The pattern `\b<t>\b` with the `i` flag matches at `p`. */
  predicate MatchAt(text: string, t: string, p: int) {
    0 <= p && p + |t| <= |text| && CaseEqAt(text, p, t) && Boundary(text, p) && Boundary(text, p + |t|)
  }

  /** `re.exec(text)` with `lastIndex == from`: the leftmost match at or after `from`. */
  function Exec(text: string, t: string, from: nat): (r: Option<nat>)
    ensures r.Some? ==> from <= r.value
    decreases |text| - from
  {
    if from > |text| then None
    else if MatchAt(text, t, from) then Some(from)
    else Exec(text, t, from + 1)
  }

  /** What `exec` finds is a match. */
  lemma {:induction false} ExecFinds(text: string, t: string, from: nat)
    requires Exec(text, t, from).Some?
    ensures MatchAt(text, t, Exec(text, t, from).value)
    decreases |text| - from
  {
    if !MatchAt(text, t, from) {
      ExecFinds(text, t, from + 1);
    }
  }

  /** A match found lies inside the text. */
  lemma ExecFits(text: string, t: string, from: nat)
    requires Exec(text, t, from).Some?
    ensures Exec(text, t, from).value + |t| <= |text|
  {
    ExecFinds(text, t, from);
  }

  /** `exec` finds the leftmost match: none starts between `from` and the one found, or after `from` when none is found. */
  lemma {:induction false} ExecLeftmost(text: string, t: string, from: nat, q: nat)
    requires from <= q
    requires Exec(text, t, from).None? || q < Exec(text, t, from).value
    ensures !MatchAt(text, t, q)
    decreases |text| - from
  {
    if from <= |text| && !MatchAt(text, t, from) && from < q {
      ExecLeftmost(text, t, from + 1, q);
    }
  }

  /**
   * The match starts the `while ((m = re.exec(text)) !== null)` loop visits from `lastIndex == from`:
   * each search resumes where the previous match ended, and an empty match stops the loop.
   */
  function Matches(text: string, t: string, from: nat): seq<nat>
    decreases |text| - from
  {
    var e := Exec(text, t, from);
    if |t| == 0 || e.None? then [] else [e.value] + Matches(text, t, e.value + |t|)
  }

  /** Every visited start is a match of `\b<t>\b`. */
  lemma {:induction false} MatchesSound(text: string, t: string, from: nat)
    ensures var ms := Matches(text, t, from);
      forall k :: 0 <= k < |ms| ==> MatchAt(text, t, ms[k])
    decreases |text| - from
  {
    if |t| > 0 && Exec(text, t, from).Some? {
      var m := Exec(text, t, from).value;
      ExecFinds(text, t, from);
      MatchesSound(text, t, m + |t|);
      MatchesUnfold(text, t, from, m);
      var rest := Matches(text, t, m + |t|);
      var ms := [m] + rest;
      forall k | 0 <= k < |ms| ensures MatchAt(text, t, ms[k]) {
        if k > 0 {
          assert ms[k] == rest[k - 1];
        }
      }
    }
  }

  /** Every visited start lies at or after `from`. */
  lemma {:induction false} MatchesAfter(text: string, t: string, from: nat)
    ensures var ms := Matches(text, t, from);
      forall k :: 0 <= k < |ms| ==> from <= ms[k]
    decreases |text| - from
  {
    if |t| > 0 && Exec(text, t, from).Some? {
      var m := Exec(text, t, from).value;
      MatchesAfter(text, t, m + |t|);
      MatchesUnfold(text, t, from, m);
      var rest := Matches(text, t, m + |t|);
      assert forall k :: 1 <= k < |rest| + 1 ==> ([m] + rest)[k] == rest[k - 1];
    }
  }

  /** The visited matches do not overlap and come in increasing order. */
  lemma {:induction false} MatchesDisjoint(text: string, t: string, from: nat)
    ensures var ms := Matches(text, t, from);
      forall j, k :: 0 <= j < k < |ms| ==> ms[j] + |t| <= ms[k]
    decreases |text| - from
  {
    if |t| > 0 && Exec(text, t, from).Some? {
      var m := Exec(text, t, from).value;
      MatchesDisjoint(text, t, m + |t|);
      MatchesAtLeast(text, t, from, m);
      var rest := Matches(text, t, m + |t|);
      assert forall k :: 1 <= k < |rest| + 1 ==> ([m] + rest)[k] == rest[k - 1];
    }
  }

  /** No match of `ms` starting before `p` reaches `p`. */
  predicate NoEarlierOverlap(ms: seq<nat>, n: nat, p: nat) {
    forall k :: 0 <= k < |ms| && ms[k] < p ==> ms[k] + n <= p
  }

  lemma NoEarlierOverlapCons(m: nat, rest: seq<nat>, n: nat, p: nat)
    requires m + n <= p
    ensures NoEarlierOverlap([m] + rest, n, p) <==> NoEarlierOverlap(rest, n, p)
  {
    var ms := [m] + rest;
    assert forall k :: 1 <= k < |ms| ==> ms[k] == rest[k - 1];
    if NoEarlierOverlap(rest, n, p) {
      forall k | 0 <= k < |ms| && ms[k] < p ensures ms[k] + n <= p {
        if k > 0 { assert ms[k] == rest[k - 1]; }
      }
    }
    if NoEarlierOverlap(ms, n, p) {
      forall k | 0 <= k < |rest| && rest[k] < p ensures rest[k] + n <= p {
        assert ms[k + 1] == rest[k];
      }
    }
  }

  lemma MatchesAtLeast(text: string, t: string, from: nat, m: nat)
    requires |t| > 0 && Exec(text, t, from) == Some(m)
    ensures Matches(text, t, from) == [m] + Matches(text, t, m + |t|)
    ensures forall k :: 0 <= k < |Matches(text, t, from)| ==> m <= Matches(text, t, from)[k]
    ensures forall k :: 1 <= k < |Matches(text, t, from)| ==> m + |t| <= Matches(text, t, from)[k]
  {
    MatchesUnfold(text, t, from, m);
    MatchesAfter(text, t, m + |t|);
    var rest := Matches(text, t, m + |t|);
    var ms := [m] + rest;
    assert forall k :: 1 <= k < |ms| ==> ms[k] == rest[k - 1];
  }

  lemma MatchesUnfold(text: string, t: string, from: nat, m: nat)
    requires |t| > 0 && Exec(text, t, from) == Some(m)
    ensures Matches(text, t, from) == [m] + Matches(text, t, m + |t|)
  {
  }

  /** One step of the exec loop: the match found at `from` joins the visited ones `done`, and the search resumes after it. */
  lemma MatchesStep(text: string, t: string, from: nat, m: nat, done: seq<nat>)
    requires |t| > 0 && Exec(text, t, from) == Some(m)
    ensures done + Matches(text, t, from) == (done + [m]) + Matches(text, t, m + |t|)
  {
    MatchesAtLeast(text, t, from, m);
  }

  /** The exec loop ends when no match is left after `from`. */
  lemma MatchesEnd(text: string, t: string, from: nat)
    requires Exec(text, t, from) == None
    ensures Matches(text, t, from) == []
  {
  }

  /**
   * A position is a match start iff the title matches there and no earlier match of the
   * same title overlaps it: the matches are the leftmost non-overlapping ones.
   */
  lemma {:induction false} MatchStartIff(text: string, t: string, from: nat, p: nat)
    requires |t| > 0 && from <= p
    ensures var ms := Matches(text, t, from);
      p in ms <==> MatchAt(text, t, p) && NoEarlierOverlap(ms, |t|, p)
    decreases |text| - from
  {
    var ms := Matches(text, t, from);
    var e := Exec(text, t, from);
    if e.None? {
      MatchesEnd(text, t, from);
      ExecLeftmost(text, t, from, p);
    } else {
      var m := e.value;
      MatchesAtLeast(text, t, from, m);
      var rest := Matches(text, t, m + |t|);
      if p < m + |t| {
        MatchStartHead(text, t, from, m, p);
      } else {
        MatchStartIff(text, t, m + |t|, p);
        assert p in ms <==> p in rest;
        NoEarlierOverlapCons(m, rest, |t|, p);
      }
    }
  }

  /** Positions before the end of the first match: only its start is a match start. */
  lemma MatchStartHead(text: string, t: string, from: nat, m: nat, p: nat)
    requires |t| > 0 && Exec(text, t, from) == Some(m) && from <= p < m + |t|
    ensures var ms := Matches(text, t, from);
      p in ms <==> MatchAt(text, t, p) && NoEarlierOverlap(ms, |t|, p)
  {
    var ms := Matches(text, t, from);
    MatchesAtLeast(text, t, from, m);
    if p < m {
      ExecLeftmost(text, t, from, p);
      assert p !in ms;
    } else if p == m {
      ExecFinds(text, t, from);
      assert ms[0] == p;
    } else {
      assert ms[0] == m && !(ms[0] + |t| <= p);
      assert p !in ms;
    }
  }

  /** A title never matches where the text goes on with a word character: no match inside a longer word. */
  lemma NoMatchBeforeWordChar(text: string, t: string, p: nat)
    requires |t| > 0 && p + |t| < |text|
    requires IsWordChar(text[p + |t| - 1]) && IsWordChar(text[p + |t|])
    ensures p !in Matches(text, t, 0)
  {
    assert !Boundary(text, p + |t|);
    MatchStartIff(text, t, 0, p);
  }

  /** "Ann" has no match in "Anna went home": not at the start, where a word character follows, and nowhere else. */
  lemma AnnNotInAnna(text: string, t: string)
    requires text == "Anna went home" && t == "Ann"
    ensures Matches(text, t, 0) == []
  {
    forall p: nat ensures !MatchAt(text, t, p) {
      NoAnnAt(text, t, p);
    }
    ExecWithoutMatch(text, t, 0);
  }

  lemma NoAnnAt(text: string, t: string, p: nat)
    requires text == "Anna went home" && t == "Ann"
    ensures !MatchAt(text, t, p)
  {
    if p == 0 {
      assert !Boundary(text, 3) by { assert IsWordChar(text[2]) && IsWordChar(text[3]); }
    } else if p == 3 {
      assert Lower(text[4]) != Lower(t[1]);
    } else if p + 3 <= |text| {
      assert Lower(text[p]) != Lower(t[0]);
    }
  }

  /** Where the title matches nowhere from `from` on, `exec` finds nothing. */
  lemma {:induction false} ExecWithoutMatch(text: string, t: string, from: nat)
    requires forall p: nat :: from <= p ==> !MatchAt(text, t, p)
    ensures Exec(text, t, from) == None
    decreases |text| - from
  {
    if from <= |text| {
      ExecWithoutMatch(text, t, from + 1);
    }
  }

  /** Some match in `ms` of a title of length `n` covers position `i`. */
  predicate CoveredBy(ms: seq<nat>, n: nat, i: int) {
    exists k :: 0 <= k < |ms| && ms[k] <= i < ms[k] + n
  }

  lemma CoveredBySnoc(ms: seq<nat>, x: nat, n: nat, i: int)
    ensures CoveredBy(ms + [x], n, i) <==> CoveredBy(ms, n, i) || x <= i < x + n
  {
    var ms' := ms + [x];
    if CoveredBy(ms, n, i) {
      var k :| 0 <= k < |ms| && ms[k] <= i < ms[k] + n;
      assert ms'[k] == ms[k];
    }
    if x <= i < x + n {
      assert ms'[|ms|] == x;
    }
    if CoveredBy(ms', n, i) {
      var k :| 0 <= k < |ms'| && ms'[k] <= i < ms'[k] + n;
      if k < |ms| { assert ms[k] == ms'[k]; }
    }
  }

  /** A match of title `t` covers position `i`. */
  predicate Covers(text: string, t: string, i: int) {
    CoveredBy(Matches(text, t, 0), |t|, i)
  }

  // -------------------------------------------------------- which card wins

  /** The entry processed last among those whose matches cover `i`. */
  function LastCovering(text: string, es: seq<Entry>, i: int): (r: Option<Entry>)
    ensures r.Some? ==> r.value in es && Covers(text, r.value.title, i)
    ensures r.None? <==> forall k :: 0 <= k < |es| ==> !Covers(text, es[k].title, i)
  {
    if es == [] then None
    else
      var r := LastCovering(text, es[1..], i);
      assert forall k :: 1 <= k < |es| ==> es[k] == es[1..][k - 1];
      if r.Some? then r else if Covers(text, es[0].title, i) then Some(es[0]) else None
  }

  /** Processing one more entry: it wins wherever it covers. */
  lemma {:induction false} LastCoveringSnoc(text: string, es: seq<Entry>, e: Entry, i: int)
    ensures LastCovering(text, es + [e], i) == if Covers(text, e.title, i) then Some(e) else LastCovering(text, es, i)
  {
    if es == [] {
      assert es + [e] == [e];
    } else {
      assert (es + [e])[1..] == es[1..] + [e];
      LastCoveringSnoc(text, es[1..], e, i);
    }
  }

  /**
   * The winner stated on the index in library order: among the entries whose matches cover `i`,
   * the one with the shortest title, and among equally short titles the last one.
   */
  function Winner(text: string, es: seq<Entry>, i: int): (r: Option<nat>)
    ensures r.Some? ==> r.value < |es| && Covers(text, es[r.value].title, i)
    ensures r.Some? ==> forall k :: 0 <= k < |es| && Covers(text, es[k].title, i) ==>
      |es[r.value].title| < |es[k].title| || (|es[r.value].title| == |es[k].title| && k <= r.value)
    ensures r.None? <==> forall k :: 0 <= k < |es| ==> !Covers(text, es[k].title, i)
  {
    if es == [] then None
    else
      var w := Winner(text, es[1..], i);
      assert forall k :: 1 <= k < |es| ==> es[k] == es[1..][k - 1];
      if Covers(text, es[0].title, i) && (w.None? || |es[0].title| < |es[w.value + 1].title|) then Some(0)
      else if w.Some? then Some(w.value + 1)
      else None
  }

  function EntryAt(es: seq<Entry>, w: Option<nat>): Option<Entry>
    requires w.Some? ==> w.value < |es|
  {
    match w
    case None => None
    case Some(j) => Some(es[j])
  }

  /** An entry put ahead of entries no longer than itself wins only where none of them covers. */
  lemma LastCoveringFront(text: string, x: Entry, ys: seq<Entry>, i: int)
    requires SortedByLengthDesc(ys)
    requires ys == [] || |ys[0].title| <= |x.title|
    ensures var w := LastCovering(text, ys, i);
      LastCovering(text, [x] + ys, i)
        == if Covers(text, x.title, i) && (w.None? || |x.title| < |w.value.title|) then Some(x) else w
  {
    var w := LastCovering(text, ys, i);
    assert ([x] + ys)[1..] == ys;
    if w.Some? {
      var k :| 0 <= k < |ys| && ys[k] == w.value;
      assert |ys[k].title| <= |ys[0].title|;
    }
  }

  lemma {:induction false} LastCoveringInsert(text: string, x: Entry, ys: seq<Entry>, i: int)
    requires SortedByLengthDesc(ys)
    ensures var w := LastCovering(text, ys, i);
      LastCovering(text, InsertByLength(x, ys), i)
        == if Covers(text, x.title, i) && (w.None? || |x.title| < |w.value.title|) then Some(x) else w
  {
    if ys == [] || |ys[0].title| <= |x.title| {
      LastCoveringFront(text, x, ys, i);
    } else {
      var ys' := ys[1..];
      SortedTail(ys);
      LastCoveringInsert(text, x, ys', i);
      var ins := InsertByLength(x, ys');
      assert InsertByLength(x, ys) == [ys[0]] + ins;
      LastCoveringCons(text, ys[0], ins, i);
      assert ys == [ys[0]] + ys';
      LastCoveringCons(text, ys[0], ys', i);
      InsertBehind(x, ys[0], Covers(text, x.title, i), Covers(text, ys[0].title, i),
        LastCovering(text, ys', i), LastCovering(text, ins, i));
    }
  }

  /** The case analysis of one insertion step behind a longer entry `y`, on the bare values. */
  lemma InsertBehind(x: Entry, y: Entry, cx: bool, cy: bool, w': Option<Entry>, r: Option<Entry>)
    requires |x.title| < |y.title|
    requires r == if cx && (w'.None? || |x.title| < |w'.value.title|) then Some(x) else w'
    ensures var w := if w'.Some? then w' else if cy then Some(y) else None;
      (if r.Some? then r else if cy then Some(y) else None)
        == if cx && (w.None? || |x.title| < |w.value.title|) then Some(x) else w
  {
  }

  lemma LastCoveringCons(text: string, e: Entry, es: seq<Entry>, i: int)
    ensures var r := LastCovering(text, es, i);
      LastCovering(text, [e] + es, i) == if r.Some? then r else if Covers(text, e.title, i) then Some(e) else None
  {
    assert ([e] + es)[1..] == es;
  }

  /** The longest-first stable order followed by last-write-wins picks the library-order winner. */
  lemma {:induction false} LastCoveringSorted(text: string, es: seq<Entry>, i: int)
    ensures LastCovering(text, SortByLength(es), i) == EntryAt(es, Winner(text, es, i))
  {
    if es != [] {
      LastCoveringSorted(text, es[1..], i);
      SortByLengthSorted(es[1..]);
      LastCoveringInsert(text, es[0], SortByLength(es[1..]), i);
      var w := Winner(text, es[1..], i);
      if w.Some? {
        assert es[1..][w.value] == es[w.value + 1];
      }
    }
  }

  function IdOf(e: Option<Entry>): Option<Id> {
    match e
    case None => None
    case Some(x) => Some(x.id)
  }

  /** The card id a relink pass leaves at position `i` of `text`. */
  function LinkAfterPass(text: string, library: seq<Card>, i: int): Option<Id> {
    IdOf(LastCovering(text, SortByLength(BuildIndex(library)), i))
  }

  /**
   * After a pass, position `i` carries the id of the covering index entry with the shortest
   * title, the later one in library order among equal lengths, and nothing when no entry covers it.
   */
  lemma PassPicksWinner(text: string, library: seq<Card>, i: int)
    ensures LinkAfterPass(text, library, i) == IdOf(EntryAt(BuildIndex(library), Winner(text, BuildIndex(library), i)))
  {
    LastCoveringSorted(text, BuildIndex(library), i);
  }

  /** Two eligible cards whose equally long titles both cover `i`: the one later in the library wins. */
  lemma PassTieGoesToLaterCard(text: string, a: Card, b: Card, i: int)
    requires Eligible(a) && Eligible(b) && |Trim(a.title)| == |Trim(b.title)|
    requires Covers(text, Trim(a.title), i) && Covers(text, Trim(b.title), i)
    ensures LinkAfterPass(text, [a, b], i) == Some(b.id)
  {
    var x, y := Entry(a.id, Trim(a.title)), Entry(b.id, Trim(b.title));
    IndexOfTwo(a, b);
    WinnerOfTie(text, x, y, i);
    PassPicksWinner(text, [a, b], i);
  }

  lemma IndexOfTwo(a: Card, b: Card)
    requires Eligible(a) && Eligible(b)
    ensures BuildIndex([a, b]) == [Entry(a.id, Trim(a.title)), Entry(b.id, Trim(b.title))]
  {
    BuildIndexAppend([a], [b]);
    BuildIndexSingle(a);
    BuildIndexSingle(b);
    assert [a, b] == [a] + [b];
  }

  lemma WinnerOfTie(text: string, x: Entry, y: Entry, i: int)
    requires |x.title| == |y.title| && Covers(text, x.title, i) && Covers(text, y.title, i)
    ensures Winner(text, [x, y], i) == Some(1)
  {
    var w := Winner(text, [x, y], i);
    assert w.Some?;
  }

  /** A tag always names a card of the current library whose trimmed title is eligible and matches there. */
  lemma PassTagsOnlyLibraryCards(text: string, library: seq<Card>, i: int, c: Id)
    requires LinkAfterPass(text, library, i) == Some(c)
    ensures exists card :: card in library && card.id == c && Eligible(card) && Covers(text, Trim(card.title), i)
  {
    var es := BuildIndex(library);
    var e := LastCovering(text, SortByLength(es), i).value;
    SortByLengthPerm(es);
    assert e in multiset(SortByLength(es));
    assert e in es;
    var card := IndexedCardSource(library, e);
  }

  /** With no eligible card, the pass leaves no tag anywhere. */
  lemma NoEligibleCardNoTag(text: string, library: seq<Card>, i: int)
    requires forall c :: c in library ==> !Eligible(c)
    ensures LinkAfterPass(text, library, i) == None
  {
    BuildIndexEmpty(library);
    assert SortByLength([]) == [];
  }
}
