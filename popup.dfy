/** The popup's search: a short-lived row cache refreshed every 30 seconds,
    a de-duplicating, capped filter over it, and the render counter that
    keeps a slow search from overwriting the results of a newer one. */
module Popup {
  import opened JsString
  import opened SearchText
  import opened Snapshot

  /** At most this many results are returned. */
  const DISPLAY_MAX_RESULTS: nat := 120

  /** Cached rows are reused for this many milliseconds. */
  const CACHE_TTL_MS: int := 30 * 1000

  // ---------------------------------------------------------------------------
  // stripProtocol

  /** Where a match of `^(.*?):\/\/` ends when the lazy group has grown to
      cover `s[..i]`: the group can only grow over characters that are not
      line terminators, and the first `://` reached ends the match. */
  function SchemeEnd(s: String, i: nat): (r: Option<nat>)
    requires i <= |s|
    ensures r.Some? ==> i + 3 <= r.value <= |s| && OccursAt(s, "://", r.value - 3)
    ensures r.Some? ==> forall j :: i <= j < r.value - 3 ==> !OccursAt(s, "://", j) && !IsLineTerminator(s[j])
    decreases |s| - i
  {
    if |s| < i + 3 then None
    else if s[i..i + 3] == "://" then Some(i + 3)
    else if IsLineTerminator(s[i]) then None
    else SchemeEnd(s, i + 1)
  }

  /** `://` at `k` is where the pattern matches: it is the first `://` and no
      line terminator comes before it. */
  predicate SchemeAt(s: String, k: int) {
    && 0 <= k
    && OccursAt(s, "://", k)
    && forall j :: 0 <= j < k ==> !OccursAt(s, "://", j) && !IsLineTerminator(s[j])
  }

  lemma {:induction false} SchemeEndFinds(s: String, i: nat, k: int)
    requires i <= k && OccursAt(s, "://", k)
    requires forall j :: i <= j < k ==> !OccursAt(s, "://", j) && !IsLineTerminator(s[j])
    ensures SchemeEnd(s, i) == Some(k + 3)
    decreases k - i
  {
    if i < k {
      assert !OccursAt(s, "://", i);
      SchemeEndFinds(s, i + 1, k);
    }
  }

  /** `.replace(/\/$/, "")`: at most one `/` is removed, and only from the
      end. */
  function WithoutTrailingSlash(s: String): (r: String)
    ensures r <= s && |s| - 1 <= |r|
    ensures r == s <==> s == [] || s[|s| - 1] != '/'
  {
    if s != [] && s[|s| - 1] == '/' then s[..|s| - 1] else s
  }

  /** `stripProtocol`. */
  function StripProtocol(url: Option<String>): (r: String)
    ensures url.None? ==> r == []
    ensures |r| <= |OrEmpty(url)|
  {
    var s := OrEmpty(url);
    var rest := match SchemeEnd(s, 0) case Some(e) => s[e..] case None => s;
    WithoutTrailingSlash(rest)
  }

  /** `stripProtocol` maps a missing or empty URL to "", drops everything up
      to and including the first `://` when no line break precedes it, and
      then one trailing `/` at most. */
  lemma StripProtocolContract(url: Option<String>)
    ensures var s := OrEmpty(url); var r := StripProtocol(url);
      && (s == [] ==> r == [])
      && (forall k :: SchemeAt(s, k) ==> r == WithoutTrailingSlash(s[k + 3..]))
      && ((forall k :: !SchemeAt(s, k)) ==> r == WithoutTrailingSlash(s))
  {
    var s := OrEmpty(url);
    forall k | SchemeAt(s, k) ensures StripProtocol(url) == WithoutTrailingSlash(s[k + 3..]) {
      SchemeEndFinds(s, 0, k);
    }
    if SchemeEnd(s, 0).Some? {
      assert SchemeAt(s, SchemeEnd(s, 0).value - 3);
    }
  }

  // ---------------------------------------------------------------------------
  // The row cache

  /** The rows `loadHistoryRows` builds: one per fetched item, in fetch
      order, nothing filtered out. */
  function PopupRows(lib: Library, items: seq<HistoryItem>): (rows: seq<Row>)
    ensures |rows| == |items|
    ensures forall i :: 0 <= i < |items| ==> rows[i] == MakeRow(lib, items[i])
  {
    seq(|items|, i requires 0 <= i < |items| => MakeRow(lib, items[i]))
  }

  /** `historyCache`: the time of the last fetch and the rows it produced. */
  class PopupCache {
    var ts: int
    var rows: seq<Row>

    constructor()
      ensures ts == 0 && rows == []
    {
      ts := 0;
      rows := [];
    }

    /** The cached rows may be served at time `now`. */
    predicate ServesAt(now: int)
      reads this
    {
      now - ts < CACHE_TTL_MS && |rows| > 0
    }

    /** `loadHistoryRows`: the clock reading `now` and the history store's
        answer `fetched` are inputs; `fetched` is only used on a refresh. */
    method LoadHistoryRows(lib: Library, now: int, fetched: seq<HistoryItem>) returns (result: seq<Row>)
      modifies this
      ensures old(ServesAt(now)) ==> result == old(rows) && ts == old(ts) && rows == old(rows)
      ensures !old(ServesAt(now)) ==> ts == now && rows == PopupRows(lib, fetched) && result == rows
    {
      if now - ts < CACHE_TTL_MS && |rows| > 0 {
        return rows;
      }
      ts := now;
      rows := PopupRows(lib, fetched);
      result := rows;
    }

    /** `searchHistory`. */
    method SearchHistory(lib: Library, query: String, now: int, fetched: seq<HistoryItem>)
      returns (filtered: seq<Entry>)
      modifies this
      ensures PopupQuery(lib, query).None? ==> filtered == [] && ts == old(ts) && rows == old(rows)
      ensures PopupQuery(lib, query).Some? ==>
        && (old(ServesAt(now)) ==> ts == old(ts) && rows == old(rows))
        && (!old(ServesAt(now)) ==> ts == now && rows == PopupRows(lib, fetched))
        && filtered == Entries(KeptRows(rows, PopupQuery(lib, query).value))
    {
      var raw := Trim(query);
      if !PassesLengthGate(raw) {
        return [];
      }
      var decoded := SafeDecode(lib, raw);
      var qn := Normalize(lib, decoded);
      if qn == [] {
        return [];
      }
      var tokens := Words(qn);
      var loaded := LoadHistoryRows(lib, now, fetched);
      filtered := FilterHistory(loaded, tokens);
    }
  }

  /** Rows fetched less than 30 seconds after a fetch that produced rows are
      the rows of that fetch, whatever the store would now return. */
  method ReloadWithinTtl(lib: Library, t0: int, t1: int, first: seq<HistoryItem>, later: seq<HistoryItem>)
    returns (a: seq<Row>, b: seq<Row>)
    requires first != [] && t0 <= t1 < t0 + CACHE_TTL_MS
    ensures a == b == PopupRows(lib, first)
  {
    var cache := new PopupCache();
    a := cache.LoadHistoryRows(lib, t0, first);
    b := cache.LoadHistoryRows(lib, t1, later);
  }

  /** An empty fetch is never served from the cache: the next load fetches
      again, even within 30 seconds. */
  method ReloadAfterEmptyFetch(lib: Library, t0: int, t1: int, later: seq<HistoryItem>)
    returns (b: seq<Row>)
    requires t0 <= t1 < t0 + CACHE_TTL_MS
    ensures b == PopupRows(lib, later)
  {
    var cache := new PopupCache();
    var a := cache.LoadHistoryRows(lib, t0, []);
    b := cache.LoadHistoryRows(lib, t1, later);
  }

  // ---------------------------------------------------------------------------
  // The query

  /** The tokens `searchHistory` searches for, or None when it returns []
      before loading any rows. */
  function PopupQuery(lib: Library, query: String): (r: Option<seq<String>>)
    ensures !PassesLengthGate(Trim(query)) ==> r.None?
    ensures r.Some? ==> forall k :: 0 <= k < |r.value| ==> r.value[k] != []
  {
    var raw := Trim(query);
    if !PassesLengthGate(raw) then None
    else
      var qn := Normalize(lib, Decoded(lib, raw));
      if qn == [] then None else Some(Words(qn))
  }

  /** The popup searches exactly when the trimmed query passes the length
      gate and normalises to something; then it has at least one token, no
      token is empty or holds a separator, and the tokens are those the
      history page would use. */
  lemma PopupQueryContract(lib: Library, query: String)
    ensures var raw := Trim(query);
      PopupQuery(lib, query).None?
      <==> !PassesLengthGate(raw) || Normalize(lib, Decoded(lib, raw)) == []
    ensures PopupQuery(lib, query).Some? ==>
      var tokens := PopupQuery(lib, query).value;
      && tokens == QueryTokens(lib, Trim(query))
      && tokens != []
      && (forall k :: 0 <= k < |tokens| ==> tokens[k] != [])
      && (forall k, i :: 0 <= k < |tokens| && 0 <= i < |tokens[k]| ==> !IsSeparator(tokens[k][i]))
  {
    QueryTokensShape(lib, Trim(query));
  }

  // ---------------------------------------------------------------------------
  // The filter loop

  /** A result as `searchHistory` returns it. */
  datatype Entry = Entry(title: String, url: String, lastVisitTime: real, visitCount: int)

  /** The object pushed for a row: the title falls back to the URL. */
  function ToEntry(r: Row): (e: Entry)
    ensures e.url == r.url && e.lastVisitTime == r.lastVisitTime && e.visitCount == r.visitCount
    ensures r.title != [] ==> e.title == r.title
    ensures r.title == [] ==> e.title == r.url
  {
    Entry(if r.title == [] then r.url else r.title, r.url, r.lastVisitTime, r.visitCount)
  }

  function Entries(rows: seq<Row>): (es: seq<Entry>)
    ensures |es| == |rows|
    ensures forall i :: 0 <= i < |rows| ==> es[i] == ToEntry(rows[i])
  {
    seq(|rows|, i requires 0 <= i < |rows| => ToEntry(rows[i]))
  }

  /** The de-duplication key. */
  function Key(r: Row): String {
    r.title + "|" + r.url
  }

  function Keys(rows: seq<Row>): set<String> {
    set r | r in rows :: Key(r)
  }

  /** A row the loop does not skip before the key test. */
  predicate Eligible(r: Row, tokens: seq<String>) {
    r.url != [] && MatchesAll(tokens, r.searchable)
  }

  /** The rows the loop would keep without the cap: each eligible row whose
      key has not been kept before, in row order. */
  function Survivors(rows: seq<Row>, tokens: seq<String>): (r: seq<Row>)
    ensures |r| <= |rows|
  {
    if rows == [] then []
    else
      var kept := Survivors(rows[..|rows| - 1], tokens);
      var last := rows[|rows| - 1];
      if Eligible(last, tokens) && Key(last) !in Keys(kept) then kept + [last] else kept
  }

  /** The rows behind the results: the first 120 survivors. */
  function KeptRows(rows: seq<Row>, tokens: seq<String>): (r: seq<Row>)
    ensures |r| <= DISPLAY_MAX_RESULTS && |r| <= |rows|
  {
    Take(Survivors(rows, tokens), DISPLAY_MAX_RESULTS)
  }

  /** The loop of `searchHistory`, over the loaded rows and the tokens. */
  method FilterHistory(rows: seq<Row>, tokens: seq<String>) returns (filtered: seq<Entry>)
    ensures filtered == Entries(KeptRows(rows, tokens))
  {
    var seen: set<String> := {};
    filtered := [];
    ghost var kept: seq<Row> := [];
    for i := 0 to |rows|
      invariant kept == Survivors(rows[..i], tokens)
      invariant seen == Keys(kept)
      invariant filtered == Entries(kept)
      invariant |kept| < DISPLAY_MAX_RESULTS
    {
      var row := rows[i];
      FilterStep(rows, tokens, i, kept, seen, filtered);
      if row.url == [] {
        continue;
      }
      var hay := row.searchable;
      if !MatchesAll(tokens, hay) {
        continue;
      }
      var key := row.title + "|" + row.url;
      if key in seen {
        continue;
      }
      seen := seen + {key};
      filtered := filtered + [ToEntry(row)];
      kept := kept + [row];
      if |filtered| >= DISPLAY_MAX_RESULTS {
        SurvivorsPrefix(rows, tokens, i + 1);
        TakeOfLongerPrefix(kept, Survivors(rows, tokens), DISPLAY_MAX_RESULTS);
        break;
      }
    }
    assert rows[..|rows|] == rows;
  }

  lemma TakeOfLongerPrefix<T>(a: seq<T>, b: seq<T>, n: nat)
    requires a <= b && |a| == n
    ensures Take(b, n) == a
  {
  }

  /** One more row: the survivors grow by that row exactly when it is
      eligible and its key is new. */
  lemma SurvivorsStep(rows: seq<Row>, tokens: seq<String>, i: nat)
    requires i < |rows|
    ensures var kept := Survivors(rows[..i], tokens);
      Survivors(rows[..i + 1], tokens)
      == if Eligible(rows[i], tokens) && Key(rows[i]) !in Keys(kept) then kept + [rows[i]] else kept
  {
    assert rows[..i + 1][..i] == rows[..i];
  }

  /** One iteration of the loop: a row that is skipped leaves the survivors
      as they are; a row that is pushed extends them, their keys and their
      entries by that row. */
  lemma FilterStep(rows: seq<Row>, tokens: seq<String>, i: nat,
                   kept: seq<Row>, seen: set<String>, filtered: seq<Entry>)
    requires i < |rows|
    requires kept == Survivors(rows[..i], tokens) && seen == Keys(kept) && filtered == Entries(kept)
    ensures var row := rows[i];
      var next := Survivors(rows[..i + 1], tokens);
      if row.url != [] && MatchesAll(tokens, row.searchable) && row.title + "|" + row.url !in seen
      then && next == kept + [row]
           && Keys(next) == seen + {row.title + "|" + row.url}
           && Entries(next) == filtered + [ToEntry(row)]
           && |next| == |filtered| + 1
      else next == kept
  {
    SurvivorsStep(rows, tokens, i);
    KeysAppend(kept, rows[i]);
    EntriesAppend(kept, rows[i]);
  }

  lemma KeysAppend(kept: seq<Row>, r: Row)
    ensures Keys(kept + [r]) == Keys(kept) + {Key(r)}
  {
    assert forall x :: x in kept + [r] <==> x in kept || x == r;
  }

  lemma EntriesAppend(kept: seq<Row>, r: Row)
    ensures Entries(kept + [r]) == Entries(kept) + [ToEntry(r)]
  {
  }

  /** Later rows only ever append to the survivors. */
  lemma {:induction false} SurvivorsPrefix(rows: seq<Row>, tokens: seq<String>, n: nat)
    requires n <= |rows|
    ensures Survivors(rows[..n], tokens) <= Survivors(rows, tokens)
    decreases |rows| - n
  {
    if n < |rows| {
      var init := rows[..|rows| - 1];
      assert init[..n] == rows[..n];
      SurvivorsPrefix(init, tokens, n);
    } else {
      assert rows[..n] == rows;
    }
  }

  /** Every survivor is an eligible row. */
  lemma {:induction false} SurvivorsEligible(rows: seq<Row>, tokens: seq<String>)
    ensures forall x :: x in Survivors(rows, tokens) ==> x in rows && Eligible(x, tokens)
  {
    if rows != [] {
      var init := rows[..|rows| - 1];
      SurvivorsEligible(init, tokens);
      assert rows == init + [rows[|rows| - 1]];
    }
  }

  /** The key of every eligible row is among the survivors' keys. */
  lemma {:induction false} SurvivorsCoverKeys(rows: seq<Row>, tokens: seq<String>)
    ensures forall j :: 0 <= j < |rows| && Eligible(rows[j], tokens) ==> Key(rows[j]) in Keys(Survivors(rows, tokens))
  {
    if rows != [] {
      var init := rows[..|rows| - 1];
      SurvivorsCoverKeys(init, tokens);
      var kept := Survivors(init, tokens);
      assert Keys(kept) <= Keys(Survivors(rows, tokens));
      forall j | 0 <= j < |rows| - 1 && Eligible(rows[j], tokens)
        ensures Key(rows[j]) in Keys(Survivors(rows, tokens))
      {
        assert rows[j] == init[j];
      }
    }
  }

  /** No two rows share a key. */
  predicate DistinctKeys(rows: seq<Row>) {
    forall i, j :: 0 <= i < j < |rows| ==> Key(rows[i]) != Key(rows[j])
  }

  /** No two survivors share a key. */
  lemma {:induction false} SurvivorsDistinct(rows: seq<Row>, tokens: seq<String>)
    ensures DistinctKeys(Survivors(rows, tokens))
  {
    if rows != [] {
      var init := rows[..|rows| - 1];
      SurvivorsDistinct(init, tokens);
      var kept := Survivors(init, tokens);
      var last := rows[|rows| - 1];
      if Eligible(last, tokens) && Key(last) !in Keys(kept) {
        var d := kept + [last];
        forall i, j | 0 <= i < j < |d| ensures Key(d[i]) != Key(d[j]) {
          assert d[i] == kept[i] && kept[i] in kept;
          if j == |kept| {
            assert Key(kept[i]) in Keys(kept);
          }
        }
      }
    }
  }

  /** The survivors keep the row order. */
  lemma {:induction false} SurvivorsInOrder(rows: seq<Row>, tokens: seq<String>)
    ensures IsSubsequence(Survivors(rows, tokens), rows)
  {
    if rows == [] {
      SubsequenceEmpty(rows);
    } else {
      var init, last := rows[..|rows| - 1], rows[|rows| - 1];
      SurvivorsInOrder(init, tokens);
      SubsequenceExtend(Survivors(init, tokens), init, last);
      assert rows == init + [last];
    }
  }

  /** Row `j` is eligible and no earlier eligible row has its key. */
  predicate FirstOfKey(rows: seq<Row>, tokens: seq<String>, j: int)
    requires 0 <= j < |rows|
  {
    && Eligible(rows[j], tokens)
    && forall i :: 0 <= i < j ==> !(Eligible(rows[i], tokens) && Key(rows[i]) == Key(rows[j]))
  }

  /** The survivors are exactly the first eligible row of each key: the
      first occurrence wins. */
  lemma {:induction false} SurvivorsAreFirstOfKey(rows: seq<Row>, tokens: seq<String>)
    ensures forall j :: 0 <= j < |rows| && FirstOfKey(rows, tokens, j) ==> rows[j] in Survivors(rows, tokens)
    ensures forall x :: x in Survivors(rows, tokens) ==> exists j :: 0 <= j < |rows| && rows[j] == x && FirstOfKey(rows, tokens, j)
  {
    if rows != [] {
      var init, last := rows[..|rows| - 1], rows[|rows| - 1];
      var n := |rows| - 1;
      SurvivorsAreFirstOfKey(init, tokens);
      SurvivorsEligible(init, tokens);
      SurvivorsCoverKeys(init, tokens);
      var kept := Survivors(init, tokens);
      assert forall j :: 0 <= j < n ==> rows[j] == init[j];
      forall j | 0 <= j < |rows| && FirstOfKey(rows, tokens, j)
        ensures rows[j] in Survivors(rows, tokens)
      {
        if j < n {
          assert FirstOfKey(init, tokens, j);
        }
      }
      forall x | x in Survivors(rows, tokens)
        ensures exists j :: 0 <= j < |rows| && rows[j] == x && FirstOfKey(rows, tokens, j)
      {
        if x in kept {
          var j :| 0 <= j < n && init[j] == x && FirstOfKey(init, tokens, j);
          assert FirstOfKey(rows, tokens, j);
        } else {
          assert x == last && Eligible(last, tokens) && Key(last) !in Keys(kept);
          forall i | 0 <= i < n && Eligible(rows[i], tokens)
            ensures Key(rows[i]) != Key(last)
          {
            assert Key(init[i]) in Keys(kept);
          }
          assert FirstOfKey(rows, tokens, n);
        }
      }
    }
  }

  /** What `searchHistory` returns for the tokens: at most 120 entries, made
      from rows with a URL whose searchable text contains every token, in
      row order, each the first eligible row of its `title|url` key, no key
      twice; below the cap, every key of an eligible row is represented. */
  lemma KeptRowsContract(rows: seq<Row>, tokens: seq<String>)
    ensures var kept := KeptRows(rows, tokens);
      && |kept| <= DISPLAY_MAX_RESULTS
      && kept == Survivors(rows, tokens)[..|kept|]
      && IsSubsequence(kept, rows)
      && (forall x :: x in kept ==> x.url != [] && MatchesAll(tokens, x.searchable))
      && DistinctKeys(kept)
      && (forall x :: x in kept ==> exists j :: 0 <= j < |rows| && rows[j] == x && FirstOfKey(rows, tokens, j))
      && (|kept| < DISPLAY_MAX_RESULTS ==>
            forall j :: 0 <= j < |rows| && Eligible(rows[j], tokens) ==> Key(rows[j]) in Keys(kept))
  {
    var d := Survivors(rows, tokens);
    var kept := KeptRows(rows, tokens);
    SurvivorsInOrder(rows, tokens);
    SurvivorsEligible(rows, tokens);
    SurvivorsDistinct(rows, tokens);
    SurvivorsAreFirstOfKey(rows, tokens);
    SurvivorsCoverKeys(rows, tokens);
    SubsequencePrefix(d, rows, |kept|);
    assert kept == d[..|kept|];
    assert forall i :: 0 <= i < |kept| ==> kept[i] == d[i];
    assert forall x :: x in kept ==> x in d;
    forall i, j | 0 <= i < j < |kept| ensures Key(kept[i]) != Key(kept[j]) {
      assert kept[i] == d[i] && kept[j] == d[j];
    }
  }

  /** Every result has a non-empty title and URL: an untitled row shows its
      URL. */
  lemma EntriesShowSomething(rows: seq<Row>, tokens: seq<String>)
    ensures forall e :: e in Entries(KeptRows(rows, tokens)) ==> e.title != [] && e.url != []
  {
    KeptRowsContract(rows, tokens);
    var kept := KeptRows(rows, tokens);
    forall e | e in Entries(kept) ensures e.title != [] && e.url != [] {
      var i :| 0 <= i < |kept| && Entries(kept)[i] == e;
      assert kept[i] in kept;
    }
  }

  /** The key joins title and URL with `|`, so two different rows can share
      a key when a title contains `|`; the second of them is then dropped. */
  lemma KeyCanCollide()
    ensures exists a: Row, b: Row :: a.title != b.title && a.url != b.url && Key(a) == Key(b)
  {
    var a := Row("a|b", "c", 0, 0.0, []);
    var b := Row("a", "b|c", 0, 0.0, []);
    assert Key(a) == "a|b|c" == Key(b);
  }

  // ---------------------------------------------------------------------------
  // The render counter

  /** What the popup shows. */
  datatype View = DefaultView | SearchView(entries: seq<Entry>)

  /** The `seq` counter of `render` and what it last put on screen. */
  class PopupController {
    var renderSeq: nat
    var view: View

    constructor()
      ensures renderSeq == 0 && view == DefaultView
    {
      renderSeq := 0;
      view := DefaultView;
    }

    /** `render` up to the `await`: takes a new ticket; a short query shows
        the default view at once, anything else goes on to search. */
    method BeginRender(input: String) returns (ticket: nat, searching: bool)
      modifies this
      ensures renderSeq == old(renderSeq) + 1 && ticket == renderSeq
      ensures searching <==> PassesLengthGate(Trim(input))
      ensures searching ==> view == old(view)
      ensures !searching ==> view == DefaultView
    {
      renderSeq := renderSeq + 1;
      ticket := renderSeq;
      var q := Trim(input);
      if JsLength(q) < MinQueryLength(q) {
        view := DefaultView;
        return ticket, false;
      }
      searching := true;
    }

    /** `render` after the `await`: the results are shown only if no render
        has started since this one took its ticket. */
    method FinishRender(ticket: nat, results: seq<Entry>) returns (applied: bool)
      modifies this
      ensures renderSeq == old(renderSeq)
      ensures applied <==> ticket == renderSeq
      ensures applied ==> view == SearchView(results)
      ensures !applied ==> view == old(view)
    {
      if ticket != renderSeq {
        return false;
      }
      view := SearchView(results);
      applied := true;
    }
  }

  /** A search that finishes after a newer render has started is dropped:
      what is shown is the newer render's outcome, whichever order the two
      searches finish in (`olderFinishesFirst` picks the order). */
  method OverlappingRenders(older: String, newer: String, olderResults: seq<Entry>, newerResults: seq<Entry>,
                            olderFinishesFirst: bool)
    returns (shown: View)
    requires PassesLengthGate(Trim(older))
    ensures PassesLengthGate(Trim(newer)) ==> shown == SearchView(newerResults)
    ensures !PassesLengthGate(Trim(newer)) ==> shown == DefaultView
  {
    var c := new PopupController();
    var t1, s1 := c.BeginRender(older);
    var t2, s2 := c.BeginRender(newer);
    if olderFinishesFirst {
      var applied1 := c.FinishRender(t1, olderResults);
      if s2 {
        var applied2 := c.FinishRender(t2, newerResults);
      }
    } else {
      if s2 {
        var applied2 := c.FinishRender(t2, newerResults);
      }
      var applied1 := c.FinishRender(t1, olderResults);
    }
    shown := c.view;
  }
}
