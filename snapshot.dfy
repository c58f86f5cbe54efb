/** History entries as the browser's history store hands them over, the
    indexed rows both search variants build from them, and the token test
    both matchers apply to a row. */
module Snapshot {
  import opened JsString
  import opened SearchText

  /** A fetched history item. A field the store leaves out is None; a null
      item reads like one with every field missing. */
  datatype HistoryItem = HistoryItem(
    title: Option<String>,
    url: Option<String>,
    visitCount: Option<int>,
    lastVisitTime: Option<real>)

  /** An indexed row: the item's fields with their defaults, plus the
      normalised text queries are matched against. */
  datatype Row = Row(title: String, url: String, visitCount: int, lastVisitTime: real, searchable: String)

  /** `x || ""` on a string field. */
  function OrEmpty(s: Option<String>): String {
    match s
    case Some(v) => v
    case None => []
  }

  /** The text a row is searched by: title, decoded title and the URL's
      expansion, normalised together. */
  function SearchableText(lib: Library, title: String, url: String): (r: String)
    ensures IsNormalForm(r)
  {
    Normalize(lib, title + " " + Decoded(lib, title) + " " + UrlText(lib, url))
  }

  /** The object literal both loaders build per item. */
  function MakeRow(lib: Library, item: HistoryItem): (r: Row)
    ensures IsNormalForm(r.searchable)
    ensures r.title == OrEmpty(item.title) && r.url == OrEmpty(item.url)
    ensures item.visitCount.None? ==> r.visitCount == 0
    ensures item.visitCount.Some? ==> r.visitCount == item.visitCount.value
    ensures item.lastVisitTime.None? ==> r.lastVisitTime == 0.0
    ensures item.lastVisitTime.Some? ==> r.lastVisitTime == item.lastVisitTime.value
  {
    var title := OrEmpty(item.title);
    var url := OrEmpty(item.url);
    Row(title, url,
        match item.visitCount case Some(n) => n case None => 0,
        match item.lastVisitTime case Some(t) => t case None => 0.0,
        SearchableText(lib, title, url))
  }

  /** `tokens.every((t) => hay.includes(t))`. */
  predicate MatchesAll(tokens: seq<String>, hay: String) {
    forall k :: 0 <= k < |tokens| ==> Includes(hay, tokens[k])
  }

  /** The tokens of a query: the white-space separated words of its decoded,
      normalised form. */
  function QueryTokens(lib: Library, q: String): (r: seq<String>)
    ensures forall k, i :: 0 <= k < |r| && 0 <= i < |r[k]| ==> !IsSpace(r[k][i])
  {
    Words(Normalize(lib, Decoded(lib, q)))
  }

  /** The words of a normal form are non-empty and free of separators, and
      there are none exactly when it is empty. */
  lemma NormalFormTokens(n: String)
    requires IsNormalForm(n)
    ensures var tokens := Words(n);
      && (tokens == [] <==> n == [])
      && (forall k :: 0 <= k < |tokens| ==> tokens[k] != [])
      && (forall k, i :: 0 <= k < |tokens| && 0 <= i < |tokens[k]| ==> !IsSeparator(tokens[k][i]))
  {
    var tokens := Words(n);
    NormalFormWords(n);
    forall k, i | 0 <= k < |tokens| && 0 <= i < |tokens[k]| ensures !IsSeparator(tokens[k][i]) {
      var j :| 0 <= j <= |n| - |tokens[k]| && OccursAt(n, tokens[k], j);
      assert tokens[k][i] == n[j + i] && !IsSpace(tokens[k][i]);
      assert IsSeparator(' ');
    }
  }

  /** Query tokens are non-empty and free of every separator character, and
      there are none exactly when the normalised query is empty. */
  lemma QueryTokensShape(lib: Library, q: String)
    ensures var tokens := QueryTokens(lib, q);
      && (tokens == [] <==> Normalize(lib, Decoded(lib, q)) == [])
      && (forall k :: 0 <= k < |tokens| ==> tokens[k] != [])
      && (forall k, i :: 0 <= k < |tokens| && 0 <= i < |tokens[k]| ==> !IsSeparator(tokens[k][i]))
  {
    NormalFormTokens(Normalize(lib, Decoded(lib, q)));
  }

  /** The query length gate both variants apply to the trimmed query: it
      passes unless the query is empty or is a single UTF-16 unit that is not
      an ideograph. */
  predicate PassesLengthGate(q: String)
    ensures PassesLengthGate(q) ==> q != []
    ensures |q| >= 2 ==> PassesLengthGate(q)
  {
    q != [] && JsLength(q) >= MinQueryLength(q)
  }

  lemma LengthGateCases(q: String)
    ensures !PassesLengthGate(q) <==> q == [] || (|q| == 1 && q[0] as int < 0x1_0000 && !IsCjk(q[0]))
  {
    if |q| == 1 {
      assert JsLength(q) == (if q[0] as int < 0x1_0000 then 1 else 2);
    }
  }

  /** `idx` lists, in increasing order, the positions in `b` that the
      elements of `a` are taken from. */
  ghost predicate Embeds<T>(a: seq<T>, b: seq<T>, idx: seq<int>) {
    && |idx| == |a|
    && (forall k :: 0 <= k < |idx| ==> 0 <= idx[k] < |b| && a[k] == b[idx[k]])
    && (forall k, l :: 0 <= k < l < |idx| ==> idx[k] < idx[l])
  }

  /** `a` can be obtained from `b` by deleting elements, keeping the order of
      the rest. */
  ghost predicate IsSubsequence<T>(a: seq<T>, b: seq<T>) {
    exists idx :: Embeds(a, b, idx)
  }

  lemma SubsequenceEmpty<T>(b: seq<T>)
    ensures IsSubsequence([], b)
  {
    assert Embeds([], b, []);
  }

  /** Keeping or dropping one more element at the end preserves the relation. */
  lemma SubsequenceExtend<T>(a: seq<T>, b: seq<T>, x: T)
    requires IsSubsequence(a, b)
    ensures IsSubsequence(a, b + [x]) && IsSubsequence(a + [x], b + [x])
  {
    var idx :| Embeds(a, b, idx);
    assert Embeds(a, b + [x], idx);
    assert Embeds(a + [x], b + [x], idx + [|b|]);
  }

  /** A prefix of a subsequence is a subsequence. */
  lemma SubsequencePrefix<T>(a: seq<T>, b: seq<T>, k: nat)
    requires IsSubsequence(a, b) && k <= |a|
    ensures IsSubsequence(a[..k], b)
  {
    var idx :| Embeds(a, b, idx);
    assert Embeds(a[..k], b, idx[..k]);
  }

  /** `.slice(0, n)`. */
  function Take<T>(s: seq<T>, n: nat): (r: seq<T>)
    ensures |r| <= n && r <= s
    ensures |s| <= n ==> r == s
    ensures |s| > n ==> |r| == n
  {
    if |s| <= n then s else s[..n]
  }
}
