/** The search behind the history page: the index is built once from the
    fetched history (rows without a URL dropped, most recent first) and kept
    for the life of the page; each query keeps the rows whose searchable text
    contains every query token, at most 300 of them. */
module HistoryPage {
  import opened JsString
  import opened SearchText
  import opened Snapshot

  /** At most this many matches are rendered. */
  const SEARCH_RENDER_COUNT: nat := 300

  // ---------------------------------------------------------------------------
  // Building the index

  /** The `.map` callback: no row (`null`) for an item without a URL. */
  function RowOf(lib: Library, item: HistoryItem): (r: Option<Row>)
    ensures r.Some? <==> OrEmpty(item.url) != []
    ensures r.Some? ==> r.value.url != []
  {
    if OrEmpty(item.url) == [] then None else Some(MakeRow(lib, item))
  }

  /** `.map(...)`: one entry per fetched item, in fetch order. */
  function MapItems(lib: Library, items: seq<HistoryItem>): (made: seq<Option<Row>>)
    ensures |made| == |items|
    ensures forall i :: 0 <= i < |items| ==> made[i] == RowOf(lib, items[i])
  {
    MapAll(RowMaker(lib), items)
  }

  function RowMaker(lib: Library): HistoryItem -> Option<Row> {
    item => RowOf(lib, item)
  }

  /** `xs.map(f)`. */
  function MapAll<A, B>(f: A -> B, xs: seq<A>): (ys: seq<B>)
    ensures |ys| == |xs|
    ensures forall i :: 0 <= i < |xs| ==> ys[i] == f(xs[i])
  {
    seq(|xs|, i requires 0 <= i < |xs| => f(xs[i]))
  }

  /** `.filter(Boolean)`: the rows that are present, in order. */
  function Present(made: seq<Option<Row>>): (rows: seq<Row>)
    ensures |rows| <= |made|
    ensures forall r :: r in rows <==> Some(r) in made
    ensures |made| == 1 ==> rows == (match made[0] case Some(r) => [r] case None => [])
  {
    if made == [] then []
    else
      assert made == [made[0]] + made[1..];
      (match made[0] case Some(r) => [r] case None => []) + Present(made[1..])
  }

  /** `.filter(Boolean)` works on each part of a concatenation separately,
      so it keeps every present row, as often as it occurs and in order. */
  lemma {:induction false} PresentAppend(a: seq<Option<Row>>, b: seq<Option<Row>>)
    ensures Present(a + b) == Present(a) + Present(b)
  {
    if a == [] {
      assert a + b == b;
    } else {
      var head := match a[0] case Some(r) => [r] case None => [];
      assert (a + b)[0] == a[0] && (a + b)[1..] == a[1..] + b;
      PresentAppend(a[1..], b);
      calc {
        Present(a + b);
        head + Present(a[1..] + b);
        head + (Present(a[1..]) + Present(b));
        (head + Present(a[1..])) + Present(b);
      }
    }
  }

  /** The unsorted rows of two batches of items are the rows of the first
      batch followed by those of the second. */
  lemma BuildRowsAppend(lib: Library, xs: seq<HistoryItem>, ys: seq<HistoryItem>)
    ensures BuildRows(lib, xs + ys) == BuildRows(lib, xs) + BuildRows(lib, ys)
  {
    MapAllAppend(RowMaker(lib), xs, ys);
    PresentAppend(MapItems(lib, xs), MapItems(lib, ys));
  }

  /** Applying `f` to each element of a concatenation gives the images of
      the first part followed by those of the second. */
  lemma MapAllAppend<A, B>(f: A -> B, xs: seq<A>, ys: seq<A>)
    ensures MapAll(f, xs + ys) == MapAll(f, xs) + MapAll(f, ys)
  {
    var all, a, b := MapAll(f, xs + ys), MapAll(f, xs), MapAll(f, ys);
    forall i | 0 <= i < |a| ensures all[i] == a[i] {
      assert (xs + ys)[i] == xs[i];
    }
    forall j | 0 <= j < |b| ensures all[|a| + j] == b[j] {
      assert (xs + ys)[|xs| + j] == ys[j];
    }
    AppendPointwise(all, a, b);
  }

  /** A sequence that agrees with `a` and then with `b` is `a + b`. */
  lemma AppendPointwise<T>(all: seq<T>, a: seq<T>, b: seq<T>)
    requires |all| == |a| + |b|
    requires forall i :: 0 <= i < |a| ==> all[i] == a[i]
    requires forall j :: 0 <= j < |b| ==> all[|a| + j] == b[j]
    ensures all == a + b
  {
    forall i | 0 <= i < |all| ensures all[i] == (a + b)[i] {
      if i >= |a| {
        assert all[|a| + (i - |a|)] == b[i - |a|];
      }
    }
  }

  /** The rows of the index before sorting. */
  function BuildRows(lib: Library, items: seq<HistoryItem>): (r: seq<Row>)
    ensures |r| <= |items|
  {
    Present(MapItems(lib, items))
  }

  /** The unsorted rows are exactly the rows made from the items that have a
      URL: none has an empty URL, none is missing. */
  lemma BuildRowsKeepsItemsWithUrl(lib: Library, items: seq<HistoryItem>)
    ensures var rows := BuildRows(lib, items);
      && |rows| <= |items|
      && (forall r :: r in rows ==> r.url != [])
      && (forall i :: 0 <= i < |items| && OrEmpty(items[i].url) != [] ==> MakeRow(lib, items[i]) in rows)
      && (forall r :: r in rows ==> exists i :: 0 <= i < |items| && OrEmpty(items[i].url) != [] && r == MakeRow(lib, items[i]))
  {
    var made := MapItems(lib, items);
    forall i | 0 <= i < |items| && OrEmpty(items[i].url) != []
      ensures MakeRow(lib, items[i]) in Present(made)
    {
      assert made[i] == Some(MakeRow(lib, items[i]));
    }
    forall r | r in Present(made)
      ensures r.url != []
      ensures exists i :: 0 <= i < |items| && OrEmpty(items[i].url) != [] && r == MakeRow(lib, items[i])
    {
      var i :| 0 <= i < |made| && made[i] == Some(r);
      assert RowOf(lib, items[i]) == Some(r);
    }
  }

  /** Non-increasing by `lastVisitTime`. */
  predicate SortedByRecency(rows: seq<Row>) {
    forall i, j :: 0 <= i < j < |rows| ==> rows[i].lastVisitTime >= rows[j].lastVisitTime
  }

  /** Places `x` before the first row not more recent than it. */
  function InsertByRecency(x: Row, rows: seq<Row>): (r: seq<Row>)
    ensures multiset(r) == multiset(rows) + multiset{x}
    ensures SortedByRecency(rows) ==> SortedByRecency(r)
  {
    if rows == [] || rows[0].lastVisitTime <= x.lastVisitTime then
      PrependNewest(x, rows);
      [x] + rows
    else
      var rest := InsertByRecency(x, rows[1..]);
      assert multiset(rows) == multiset([rows[0]]) + multiset(rows[1..]) by {
        assert rows == [rows[0]] + rows[1..];
      }
      HeadBoundsRest(rows, x, rest);
      [rows[0]] + rest
  }

  /** A row at least as recent as the head of a sorted list can go in front. */
  lemma PrependNewest(x: Row, rows: seq<Row>)
    requires rows == [] || rows[0].lastVisitTime <= x.lastVisitTime
    ensures SortedByRecency(rows) ==> SortedByRecency([x] + rows)
  {
    if SortedByRecency(rows) {
      var r := [x] + rows;
      forall i, j | 0 <= i < j < |r| ensures r[i].lastVisitTime >= r[j].lastVisitTime {
        assert r[j] == rows[j - 1];
        if i > 0 {
          assert r[i] == rows[i - 1];
        } else {
          assert rows[0].lastVisitTime >= rows[j - 1].lastVisitTime;
        }
      }
    }
  }

  /** A sorted list's head is at least as recent as anything made from its
      tail and a less recent row. */
  lemma HeadBoundsRest(rows: seq<Row>, x: Row, rest: seq<Row>)
    requires rows != [] && x.lastVisitTime < rows[0].lastVisitTime
    requires multiset(rest) == multiset(rows[1..]) + multiset{x}
    ensures SortedByRecency(rows) && SortedByRecency(rest) ==> SortedByRecency([rows[0]] + rest)
  {
    if SortedByRecency(rows) && SortedByRecency(rest) {
      forall j | 0 <= j < |rest| ensures rest[j].lastVisitTime <= rows[0].lastVisitTime {
        assert rest[j] in multiset(rest);
        if rest[j] != x {
          assert rest[j] in multiset(rows[1..]);
          var k :| 0 <= k < |rows[1..]| && rows[1..][k] == rest[j];
          assert rows[k + 1] == rest[j];
        }
      }
      var r := [rows[0]] + rest;
      forall i, j | 0 <= i < j < |r| ensures r[i].lastVisitTime >= r[j].lastVisitTime {
        if i > 0 {
          assert r[i] == rest[i - 1] && r[j] == rest[j - 1];
        } else {
          assert r[j] == rest[j - 1];
        }
      }
    }
  }

  /** `.sort((a, b) => b.lastVisitTime - a.lastVisitTime)`, a stable sort
      putting the most recent rows first. */
  function SortByRecency(rows: seq<Row>): (r: seq<Row>)
    ensures multiset(r) == multiset(rows)
    ensures SortedByRecency(r)
  {
    if rows == [] then []
    else
      assert rows == [rows[0]] + rows[1..];
      InsertByRecency(rows[0], SortByRecency(rows[1..]))
  }

  /** The rows visited last at time `t`, in order. */
  function VisitedAt(rows: seq<Row>, t: real): seq<Row> {
    if rows == [] then []
    else (if rows[0].lastVisitTime == t then [rows[0]] else []) + VisitedAt(rows[1..], t)
  }

  lemma {:induction false} InsertByRecencyStable(x: Row, rows: seq<Row>, t: real)
    ensures VisitedAt(InsertByRecency(x, rows), t)
         == (if x.lastVisitTime == t then [x] else []) + VisitedAt(rows, t)
  {
    if rows == [] || rows[0].lastVisitTime <= x.lastVisitTime {
      assert ([x] + rows)[1..] == rows;
    } else {
      var rest := InsertByRecency(x, rows[1..]);
      InsertByRecencyStable(x, rows[1..], t);
      assert ([rows[0]] + rest)[1..] == rest;
    }
  }

  /** Rows with equal `lastVisitTime` keep their fetch order. */
  lemma {:induction false} SortByRecencyStable(rows: seq<Row>, t: real)
    ensures VisitedAt(SortByRecency(rows), t) == VisitedAt(rows, t)
  {
    if rows != [] {
      SortByRecencyStable(rows[1..], t);
      InsertByRecencyStable(rows[0], SortByRecency(rows[1..]), t);
    }
  }

  /** The index `loadRows` caches. */
  function IndexRows(lib: Library, items: seq<HistoryItem>): (r: seq<Row>)
    ensures |r| <= |items|
    ensures SortedByRecency(r)
  {
    var built := BuildRows(lib, items);
    var sorted := SortByRecency(built);
    assert |sorted| == |multiset(sorted)| == |multiset(built)| == |built|;
    sorted
  }

  /** The index holds exactly the rows of the items that have a URL, each
      built by `MakeRow` (so its searchable text is the normalised title,
      decoded title and URL expansion, and missing counts are 0), most
      recent first, with ties in fetch order. */
  lemma IndexRowsContract(lib: Library, items: seq<HistoryItem>)
    ensures var index := IndexRows(lib, items);
      && (forall i :: 0 <= i < |index| ==> index[i].url != [])
      && SortedByRecency(index)
      && multiset(index) == multiset(BuildRows(lib, items))
      && (forall r :: r in index ==> exists i :: 0 <= i < |items| && r == MakeRow(lib, items[i]))
      && (forall i :: 0 <= i < |items| && OrEmpty(items[i].url) != [] ==> MakeRow(lib, items[i]) in index)
      && (forall t :: VisitedAt(index, t) == VisitedAt(BuildRows(lib, items), t))
  {
    var rows := BuildRows(lib, items);
    var index := IndexRows(lib, items);
    BuildRowsKeepsItemsWithUrl(lib, items);
    assert forall r :: r in index <==> r in rows by {
      assert forall r :: r in index <==> r in multiset(index);
    }
    forall t ensures VisitedAt(index, t) == VisitedAt(rows, t) {
      SortByRecencyStable(rows, t);
    }
  }

  /** The page-wide `cache`: empty until the first load, then the index for
      as long as the page lives. An empty index counts as loaded. */
  class HistoryCache {
    var rows: Option<seq<Row>>

    constructor()
      ensures rows == None
    {
      rows := None;
    }

    /** `loadRows`: `fetched` is what the history store returns if asked; it
        is only used when nothing is cached yet. */
    method LoadRows(lib: Library, fetched: seq<HistoryItem>) returns (result: seq<Row>)
      modifies this
      ensures old(rows).Some? ==> result == old(rows).value && rows == old(rows)
      ensures old(rows).None? ==> result == IndexRows(lib, fetched) && rows == Some(result)
    {
      if rows.Some? {
        return rows.value;
      }
      result := IndexRows(lib, fetched);
      rows := Some(result);
    }
  }

  /** Once loaded, later loads return the first index whatever the history
      store would return by then. */
  method LoadRowsTwice(lib: Library, first: seq<HistoryItem>, later: seq<HistoryItem>)
    returns (a: seq<Row>, b: seq<Row>)
    ensures a == b == IndexRows(lib, first)
  {
    var cache := new HistoryCache();
    a := cache.LoadRows(lib, first);
    b := cache.LoadRows(lib, later);
  }

  // ---------------------------------------------------------------------------
  // Matching

  /** `rows.filter(...)` with the every-token test. */
  function Matching(rows: seq<Row>, tokens: seq<String>): (r: seq<Row>)
    ensures |r| <= |rows|
  {
    if rows == [] then []
    else
      var init, last := rows[..|rows| - 1], rows[|rows| - 1];
      Matching(init, tokens) + (if MatchesAll(tokens, last.searchable) then [last] else [])
  }

  /** Every kept row contains every token, and every row that does is kept. */
  lemma {:induction false} MatchingContract(rows: seq<Row>, tokens: seq<String>)
    ensures var r := Matching(rows, tokens);
      && (forall i :: 0 <= i < |r| ==> MatchesAll(tokens, r[i].searchable))
      && (forall x :: x in rows && MatchesAll(tokens, x.searchable) ==> x in r)
  {
    if rows != [] {
      var init, last := rows[..|rows| - 1], rows[|rows| - 1];
      MatchingContract(init, tokens);
      var m := Matching(init, tokens);
      assert forall i :: 0 <= i < |m| ==> MatchesAll(tokens, m[i].searchable);
      assert rows == init + [last];
      if MatchesAll(tokens, last.searchable) {
        var r := Matching(rows, tokens);
        assert r == m + [last];
        forall i | 0 <= i < |r| ensures MatchesAll(tokens, r[i].searchable) {
          if i < |m| { assert r[i] == m[i]; } else { assert r[i] == last; }
        }
      } else {
        assert Matching(rows, tokens) == m;
      }
    }
  }

  /** On one row the filter keeps it exactly when it contains every token. */
  lemma MatchingOne(x: Row, tokens: seq<String>)
    ensures Matching([x], tokens) == if MatchesAll(tokens, x.searchable) then [x] else []
  {
    assert [x][..0] == [];
  }

  /** The filter works on each part of a concatenation separately, so each
      matching row is kept as often as it occurs, and in order. */
  lemma {:induction false} MatchingAppend(a: seq<Row>, b: seq<Row>, tokens: seq<String>)
    ensures Matching(a + b, tokens) == Matching(a, tokens) + Matching(b, tokens)
    decreases |b|
  {
    if b == [] {
      assert a + b == a;
    } else {
      var init, last := b[..|b| - 1], b[|b| - 1];
      var tail := if MatchesAll(tokens, last.searchable) then [last] else [];
      assert (a + b)[..|a + b| - 1] == a + init && (a + b)[|a + b| - 1] == last;
      MatchingAppend(a, init, tokens);
      calc {
        Matching(a + b, tokens);
        Matching(a + init, tokens) + tail;
        (Matching(a, tokens) + Matching(init, tokens)) + tail;
        Matching(a, tokens) + (Matching(init, tokens) + tail);
      }
    }
  }

  /** The matches keep the order of the index. */
  lemma {:induction false} MatchingIsSubsequence(rows: seq<Row>, tokens: seq<String>)
    ensures IsSubsequence(Matching(rows, tokens), rows)
  {
    if rows == [] {
      SubsequenceEmpty(rows);
    } else {
      var init, last := rows[..|rows| - 1], rows[|rows| - 1];
      MatchingIsSubsequence(init, tokens);
      SubsequenceExtend(Matching(init, tokens), init, last);
      assert rows == init + [last];
      if MatchesAll(tokens, last.searchable) {
        assert Matching(rows, tokens) == Matching(init, tokens) + [last];
      } else {
        assert Matching(init, tokens) + [] == Matching(init, tokens);
        assert Matching(rows, tokens) == Matching(init, tokens);
      }
    }
  }

  /** The search part of `renderSearch` for the typed input: None when the
      default view is shown instead, otherwise the rows to render. */
  function SearchRows(lib: Library, rows: seq<Row>, input: String): (r: Option<seq<Row>>)
    ensures r.None? <==> !PassesLengthGate(Trim(input))
    ensures r.Some? ==> |r.value| <= SEARCH_RENDER_COUNT && |r.value| <= |rows|
  {
    var q := Trim(input);
    if !PassesLengthGate(q) then None
    else Some(Take(Matching(rows, QueryTokens(lib, q)), SEARCH_RENDER_COUNT))
  }

  /** No search runs for a query that trims to nothing or to a single UTF-16
      unit that is not an ideograph. */
  lemma SearchRowsGate(lib: Library, rows: seq<Row>, input: String)
    ensures var q := Trim(input);
      SearchRows(lib, rows, input).None?
      <==> q == [] || (|q| == 1 && q[0] as int < 0x1_0000 && !IsCjk(q[0]))
  {
    LengthGateCases(Trim(input));
  }

  /** The first `n` matches are rows of the index, in index order, each
      containing every token; below the cap no matching row is missing. */
  lemma TakeMatchingSound(rows: seq<Row>, tokens: seq<String>, n: nat)
    ensures var found := Take(Matching(rows, tokens), n);
      var m := Matching(rows, tokens);
      && |found| == (if |m| < n then |m| else n)
      && found == m[..|found|]
      && IsSubsequence(found, rows)
      && |found| <= n
      && (forall i :: 0 <= i < |found| ==> MatchesAll(tokens, found[i].searchable))
      && (|found| < n ==> forall x :: x in rows && MatchesAll(tokens, x.searchable) ==> x in found)
  {
    var m := Matching(rows, tokens);
    var found := Take(m, n);
    MatchingContract(rows, tokens);
    MatchingIsSubsequence(rows, tokens);
    SubsequencePrefix(m, rows, |found|);
    assert found == m[..|found|];
  }

  /** The matches are rows of the index, in index order, each containing
      every query token, at most 300 of them; below the cap, no matching row
      is missing. */
  lemma SearchRowsSound(lib: Library, rows: seq<Row>, input: String)
    requires SearchRows(lib, rows, input).Some?
    ensures var found := SearchRows(lib, rows, input).value;
      var tokens := QueryTokens(lib, Trim(input));
      var m := Matching(rows, tokens);
      && |found| == (if |m| < SEARCH_RENDER_COUNT then |m| else SEARCH_RENDER_COUNT)
      && found == m[..|found|]
      && IsSubsequence(found, rows)
      && |found| <= SEARCH_RENDER_COUNT
      && (forall i :: 0 <= i < |found| ==> MatchesAll(tokens, found[i].searchable))
      && (|found| < SEARCH_RENDER_COUNT ==>
            forall x :: x in rows && MatchesAll(tokens, x.searchable) ==> x in found)
  {
    TakeMatchingSound(rows, QueryTokens(lib, Trim(input)), SEARCH_RENDER_COUNT);
  }

  /** There is no guard against a query with no tokens: a query that passes
      the length gate but normalises to nothing (all punctuation, say) shows
      the first 300 rows of the index. */
  lemma SearchRowsWithoutTokens(lib: Library, rows: seq<Row>, input: String)
    requires PassesLengthGate(Trim(input))
    requires Normalize(lib, Decoded(lib, Trim(input))) == []
    ensures SearchRows(lib, rows, input) == Some(Take(rows, SEARCH_RENDER_COUNT))
  {
    var tokens := QueryTokens(lib, Trim(input));
    QueryTokensShape(lib, Trim(input));
    assert tokens == [];
    MatchingEverything(rows, tokens);
  }

  lemma {:induction false} MatchingEverything(rows: seq<Row>, tokens: seq<String>)
    requires tokens == []
    ensures Matching(rows, tokens) == rows
  {
    if rows != [] {
      var init, last := rows[..|rows| - 1], rows[|rows| - 1];
      MatchingEverything(init, tokens);
      assert MatchesAll(tokens, last.searchable);
      calc {
        Matching(rows, tokens);
        Matching(init, tokens) + [last];
        init + [last];
        { assert rows == init + [last]; }
        rows;
      }
    }
  }

  // ---------------------------------------------------------------------------
  // escapeHtml

  /** `escapeHtml`: null or undefined gives ""; `&`, `<`, `>` and `"` are
      replaced by their entities, `&` first. */
  function EscapeHtml(s: Option<String>): (r: String)
    ensures s.None? ==> r == []
    ensures s.Some? ==> |s.value| <= |r|
  {
    var t := match s case Some(v) => v case None => [];
    ReplaceAll(ReplaceAll(ReplaceAll(ReplaceAll(t, '&', "&amp;"), '<', "&lt;"), '>', "&gt;"), '"', "&quot;")
  }

  /** The entity a single character becomes. */
  function EscapeChar(c: char): String {
    if c == '&' then "&amp;"
    else if c == '<' then "&lt;"
    else if c == '>' then "&gt;"
    else if c == '"' then "&quot;"
    else [c]
  }

  /** Character-by-character escaping. */
  function EscapeEach(s: String): String {
    if s == [] then [] else EscapeChar(s[0]) + EscapeEach(s[1..])
  }

  lemma {:induction false} ReplaceAllAbsent(s: String, c: char, rep: String)
    requires c !in s
    ensures ReplaceAll(s, c, rep) == s
  {
    if s != [] {
      ReplaceAllAbsent(s[1..], c, rep);
    }
  }

  lemma ReplaceAllOne(c: char, d: char, rep: String)
    ensures ReplaceAll([c], d, rep) == if c == d then rep else [c]
  {
    assert [c][1..] == [];
  }

  /** The four replacements in sequence turn one character into its entity. */
  lemma EscapeHtmlChar(c: char)
    ensures EscapeHtml(Some([c])) == EscapeChar(c)
  {
    ReplaceAllOne(c, '&', "&amp;");
    if c == '&' {
      EscapeAmpersand();
    } else {
      ReplaceAllOne(c, '<', "&lt;");
      if c == '<' {
        ReplaceAllAbsent("&lt;", '>', "&gt;");
        ReplaceAllAbsent("&lt;", '"', "&quot;");
      } else {
        ReplaceAllOne(c, '>', "&gt;");
        if c == '>' {
          ReplaceAllAbsent("&gt;", '"', "&quot;");
        } else {
          ReplaceAllOne(c, '"', "&quot;");
        }
      }
    }
  }

  /** `&` is replaced first, so its entity is not escaped again. */
  lemma EscapeAmpersand()
    ensures EscapeHtml(Some("&")) == "&amp;"
  {
    ReplaceAllOne('&', '&', "&amp;");
    LaterStagesKeep("&amp;");
  }

  /** The last three replacements leave a string without `<`, `>` and `"`
      unchanged. */
  lemma LaterStagesKeep(e: String)
    requires '<' !in e && '>' !in e && '"' !in e
    ensures ReplaceAll(ReplaceAll(ReplaceAll(e, '<', "&lt;"), '>', "&gt;"), '"', "&quot;") == e
  {
    ReplaceAllAbsent(e, '<', "&lt;");
    ReplaceAllAbsent(e, '>', "&gt;");
    ReplaceAllAbsent(e, '"', "&quot;");
  }

  /** Replacing all of one character after another is the same as escaping
      each character on its own. */
  lemma {:induction false} EscapeHtmlIsPerChar(s: String)
    ensures EscapeHtml(Some(s)) == EscapeEach(s)
  {
    if s != [] {
      var c, rest := s[0], s[1..];
      assert s == [c] + rest;
      EscapeHtmlIsPerChar(rest);
      EscapeHtmlChar(c);
      var a1, b1 := ReplaceAll([c], '&', "&amp;"), ReplaceAll(rest, '&', "&amp;");
      ReplaceAllAppend([c], rest, '&', "&amp;");
      var a2, b2 := ReplaceAll(a1, '<', "&lt;"), ReplaceAll(b1, '<', "&lt;");
      ReplaceAllAppend(a1, b1, '<', "&lt;");
      var a3, b3 := ReplaceAll(a2, '>', "&gt;"), ReplaceAll(b2, '>', "&gt;");
      ReplaceAllAppend(a2, b2, '>', "&gt;");
      ReplaceAllAppend(a3, b3, '"', "&quot;");
    }
  }

  /** Reads the four entities back; every other character stands for itself. */
  function UnescapeHtml(s: String): String
    decreases |s|
  {
    if s == [] then []
    else if "&amp;" <= s then "&" + UnescapeHtml(s[5..])
    else if "&lt;" <= s then "<" + UnescapeHtml(s[4..])
    else if "&gt;" <= s then ">" + UnescapeHtml(s[4..])
    else if "&quot;" <= s then "\"" + UnescapeHtml(s[6..])
    else [s[0]] + UnescapeHtml(s[1..])
  }

  lemma {:induction false} UnescapeEach(s: String)
    ensures UnescapeHtml(EscapeEach(s)) == s
  {
    if s != [] {
      var c, rest := s[0], s[1..];
      UnescapeEach(rest);
      UnescapeChar(c, EscapeEach(rest));
      assert s == [c] + rest;
    }
  }

  /** Reading back the front of an escaped string recovers its first
      character. */
  lemma UnescapeChar(c: char, tail: String)
    ensures UnescapeHtml(EscapeChar(c) + tail) == [c] + UnescapeHtml(tail)
  {
    if c == '&' {
      UnescapeEntity("&amp;", tail);
    } else if c == '<' {
      UnescapeEntity("&lt;", tail);
    } else if c == '>' {
      UnescapeEntity("&gt;", tail);
    } else if c == '"' {
      UnescapeEntity("&quot;", tail);
    } else {
      var e := [c] + tail;
      assert e[0] == c && e[1..] == tail;
    }
  }

  /** An entity at the front reads back as its character. */
  lemma UnescapeEntity(ent: String, tail: String)
    requires ent in ["&amp;", "&lt;", "&gt;", "&quot;"]
    ensures UnescapeHtml(ent + tail)
      == (if ent == "&amp;" then "&" else if ent == "&lt;" then "<" else if ent == "&gt;" then ">" else "\"")
         + UnescapeHtml(tail)
  {
    var e := ent + tail;
    assert e[..|ent|] == ent && e[|ent|..] == tail;
    if ent != "&amp;" {
      assert e[1] == ent[1] != 'a';
    }
    if ent == "&gt;" || ent == "&quot;" {
      assert e[1] != 'l';
    }
    if ent == "&quot;" {
      assert e[1] != 'g';
    }
  }

  lemma {:induction false} EscapeEachIsSafe(s: String)
    ensures var r := EscapeEach(s); '<' !in r && '>' !in r && '"' !in r
  {
    if s != [] {
      EscapeEachIsSafe(s[1..]);
    }
  }

  /** `escapeHtml` maps null to "", leaves no `<`, `>` or `"` in its output,
      and loses nothing: reading the entities back gives the input. */
  lemma EscapeHtmlContract(s: Option<String>)
    ensures s.None? ==> EscapeHtml(s) == []
    ensures var r := EscapeHtml(s); '<' !in r && '>' !in r && '"' !in r
    ensures s.Some? ==> UnescapeHtml(EscapeHtml(s)) == s.value
  {
    var t := match s case Some(v) => v case None => [];
    EscapeHtmlIsPerChar(t);
    EscapeEachIsSafe(t);
    UnescapeEach(t);
    assert EscapeHtml(s) == EscapeHtml(Some(t));
  }
}
