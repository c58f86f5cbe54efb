/** The text helpers both search variants share: the CJK-aware query length
    gate, tolerant URL decoding, normalisation of titles, URLs and queries,
    and the expansion of a URL into searchable text.

    Unicode NFKC, `toLowerCase`, `decodeURIComponent` and the WHATWG URL
    parser are not modelled; they enter as the fields of a `Library` value,
    so every result below holds whatever those functions do, except
    `NormalizeIdempotent`, which assumes that NFKC and lower-casing leave
    the output of `normalize` unchanged. */
module SearchText {
  import opened JsString

  /** What the URL parser yields for an absolute URL: host name, path and the
      query parameters as (key, value) pairs in iteration order. */
  datatype ParsedUrl = ParsedUrl(hostname: String, pathname: String, searchParams: seq<(String, String)>)

  /** The platform functions the helpers call. `decodeComponent` yields None
      where `decodeURIComponent` throws; `parseUrl` yields None where
      `new URL(url)` throws. */
  datatype Library = Library(
    nfkc: String -> String,
    toLowerCase: String -> String,
    decodeComponent: String -> Option<String>,
    parseUrl: String -> Option<ParsedUrl>)

  // ---------------------------------------------------------------------------
  // Query length gate

  /** CJK Unified Ideographs (extension A and the main block) and CJK
      Compatibility Ideographs. */
  predicate IsCjk(c: char) {
    ('\U{3400}' <= c <= '\U{9FFF}') || ('\U{F900}' <= c <= '\U{FAFF}')
  }

  /** `hasCjk`: scans the string for a CJK ideograph. */
  function HasCjk(s: String): (b: bool)
    ensures b <==> exists i :: 0 <= i < |s| && IsCjk(s[i])
  {
    if s == [] then false
    else if IsCjk(s[0]) then true
    else
      var b := HasCjk(s[1..]);
      assert b ==> exists i :: 0 <= i < |s| && IsCjk(s[i]) by {
        if b {
          var i :| 0 <= i < |s[1..]| && IsCjk(s[1..][i]);
          assert IsCjk(s[i + 1]);
        }
      }
      assert (exists i :: 0 <= i < |s| && IsCjk(s[i])) ==> b by {
        if exists i :: 0 <= i < |s| && IsCjk(s[i]) {
          var i :| 0 <= i < |s| && IsCjk(s[i]);
          assert i > 0 && IsCjk(s[1..][i - 1]);
        }
      }
      b
  }

  /** `minQueryLength`: one character suffices for a query containing an
      ideograph, any other query needs two. */
  function MinQueryLength(q: String): (n: nat)
    ensures n == 1 || n == 2
    ensures n == 1 <==> exists i :: 0 <= i < |q| && IsCjk(q[i])
  {
    if HasCjk(q) then 1 else 2
  }

  // ---------------------------------------------------------------------------
  // Normalisation

  /** Zero width space, non-joiner, joiner and the byte order mark. */
  predicate IsZeroWidth(c: char) {
    ('\U{200B}' <= c <= '\U{200D}') || c == '\U{FEFF}'
  }

  /** The characters `normalize` turns into word breaks: white space and the
      listed punctuation. */
  predicate IsSeparator(c: char)
    ensures IsSpace(c) ==> IsSeparator(c)
  {
    IsSpace(c) || c in "-_./:?=&%#|\\()[]{}\"'`~!@$^*,;+<>"
  }

  /** `.replace(/[\u200B-\u200D\uFEFF]/g, "")`: removes the zero width
      characters; on one character it keeps or drops that character, and
      `StripZeroWidthAppend` extends this to every string. */
  function StripZeroWidth(s: String): (r: String)
    ensures NoZeroWidth(r)
    ensures |s| == 1 ==> r == (if IsZeroWidth(s[0]) then [] else s)
  {
    if s == [] then []
    else if IsZeroWidth(s[0]) then StripZeroWidth(s[1..])
    else [s[0]] + StripZeroWidth(s[1..])
  }

  /** Removes the run of separators `s` starts with. */
  function DropSeparators(s: String): (r: String)
    ensures |r| <= |s| && r == s[|s| - |r|..]
    ensures forall i :: 0 <= i < |s| - |r| ==> IsSeparator(s[i])
    ensures r != [] ==> !IsSeparator(r[0])
  {
    if s != [] && IsSeparator(s[0]) then DropSeparators(s[1..]) else s
  }

  /** No space directly follows another space. */
  predicate SingleSpaced(s: String) {
    forall i :: 0 < i < |s| ==> s[i - 1] != ' ' || s[i] != ' '
  }

  /** The only separator left is the plain space. */
  predicate OnlySpaceSeparates(s: String) {
    forall i :: 0 <= i < |s| ==> IsSeparator(s[i]) ==> s[i] == ' '
  }

  /** `.replace(/[\s...]+/g, " ")`: every maximal run of separators becomes
      one space; every other character is kept. */
  function Collapse(s: String): (r: String)
    ensures OnlySpaceSeparates(r) && SingleSpaced(r)
    ensures NoZeroWidth(s) ==> NoZeroWidth(r)
    ensures s != [] && !IsSeparator(s[0]) ==> r != [] && r[0] == s[0]
    decreases |s|
  {
    if s == [] then []
    else if IsSeparator(s[0]) then
      var rest := Collapse(DropSeparators(s[1..]));
      ConsKeepsCollapsed(' ', rest);
      [' '] + rest
    else
      var rest := Collapse(s[1..]);
      ConsKeepsCollapsed(s[0], rest);
      [s[0]] + rest
  }

  lemma ConsKeepsCollapsed(c: char, r: String)
    requires OnlySpaceSeparates(r) && SingleSpaced(r)
    requires IsSeparator(c) ==> c == ' '
    requires c == ' ' && r != [] ==> r[0] != ' '
    ensures OnlySpaceSeparates([c] + r) && SingleSpaced([c] + r)
    ensures NoZeroWidth(r) && !IsZeroWidth(c) ==> NoZeroWidth([c] + r)
  {
    var s := [c] + r;
    assert forall i :: 0 < i < |s| ==> s[i] == r[i - 1];
  }

  predicate NoZeroWidth(s: String) {
    forall i :: 0 <= i < |s| ==> !IsZeroWidth(s[i])
  }

  /** What `normalize` guarantees of its output: no zero width character, no
      separator but the space, no doubled space, no space at either end. */
  predicate IsNormalForm(s: String) {
    && NoZeroWidth(s)
    && OnlySpaceSeparates(s)
    && SingleSpaced(s)
    && (s != [] ==> s[0] != ' ' && s[|s| - 1] != ' ')
  }

  /** A slice of a collapsed string without zero width characters is still
      collapsed and without them. */
  lemma SliceKeepsCollapsed(c: String, a: nat, b: nat)
    requires a <= b <= |c|
    requires NoZeroWidth(c) && OnlySpaceSeparates(c) && SingleSpaced(c)
    ensures NoZeroWidth(c[a..b]) && OnlySpaceSeparates(c[a..b]) && SingleSpaced(c[a..b])
  {
    var r := c[a..b];
    forall i | 0 <= i < |r| ensures r[i] == c[a + i] {
    }
    forall i | 0 < i < |r| ensures r[i - 1] != ' ' || r[i] != ' ' {
      assert r[i - 1] == c[a + i - 1];
    }
  }

  /** Trimming a collapsed string only removes one space at each end. */
  lemma TrimCollapsedIsNormal(c: String)
    requires NoZeroWidth(c)
    requires OnlySpaceSeparates(c) && SingleSpaced(c)
    ensures IsNormalForm(Trim(c))
  {
    var r := Trim(c);
    var a, b :| 0 <= a <= b <= |c| && r == c[a..b];
    SliceKeepsCollapsed(c, a, b);
    assert IsSpace(' ');
  }

  /** `normalize`: NFKC, lower case, zero width characters removed,
      separator runs collapsed to one space, trimmed. */
  function Normalize(lib: Library, text: String): (r: String)
    ensures IsNormalForm(r)
  {
    var c := Collapse(StripZeroWidth(lib.toLowerCase(lib.nfkc(text))));
    TrimCollapsedIsNormal(c);
    Trim(c)
  }

  lemma {:induction false} StripZeroWidthKeeps(s: String)
    requires NoZeroWidth(s)
    ensures StripZeroWidth(s) == s
  {
    if s != [] {
      StripZeroWidthKeeps(s[1..]);
    }
  }

  lemma {:induction false} CollapseKeeps(s: String)
    requires OnlySpaceSeparates(s) && SingleSpaced(s)
    ensures Collapse(s) == s
    decreases |s|
  {
    if s != [] {
      assert OnlySpaceSeparates(s[1..]) && SingleSpaced(s[1..]) by {
        assert forall i :: 0 <= i < |s[1..]| ==> s[1..][i] == s[i + 1];
      }
      if IsSeparator(s[0]) {
        assert s[1..] == [] || !IsSeparator(s[1]);
        assert DropSeparators(s[1..]) == s[1..];
        CollapseKeeps(s[1..]);
      } else {
        CollapseKeeps(s[1..]);
      }
    }
  }

  /** A normal form passes through every step after the library calls
      unchanged. */
  lemma NormalFormIsFixed(s: String)
    requires IsNormalForm(s)
    ensures Trim(Collapse(StripZeroWidth(s))) == s
  {
    StripZeroWidthKeeps(s);
    CollapseKeeps(s);
    assert IsSeparator(' ');
    if s != [] {
      assert !IsSpace(s[0]) && !IsSpace(s[|s| - 1]);
    }
    assert TrimStart(s) == s;
  }

  /** `normalize` is idempotent when NFKC and lower-casing leave its output
      alone. They are library functions, so this is a premise here, and real
      NFKC can break it: U+0065 U+200B U+0301 is NFKC-stable, `normalize`
      strips the U+200B, and NFKC then composes U+0065 U+0301 to U+00E9. */
  lemma NormalizeIdempotent(lib: Library, x: String)
    requires lib.nfkc(Normalize(lib, x)) == Normalize(lib, x)
    requires lib.toLowerCase(Normalize(lib, x)) == Normalize(lib, x)
    ensures Normalize(lib, Normalize(lib, x)) == Normalize(lib, x)
  {
    NormalFormIsFixed(Normalize(lib, x));
  }

  /** Splitting a normal form on white space yields the words between its
      single spaces; there are none exactly when it is empty. */
  lemma NormalFormWords(s: String)
    requires IsNormalForm(s)
    ensures Words(s) == [] <==> s == []
  {
    if s != [] {
      assert !IsSpace(s[0]) by { assert IsSeparator(' '); }
    }
  }

  /** Removing zero width characters works on each part of a concatenation
      separately, so it keeps every other character, in order. */
  lemma {:induction false} StripZeroWidthAppend(a: String, b: String)
    ensures StripZeroWidth(a + b) == StripZeroWidth(a) + StripZeroWidth(b)
  {
    if a == [] {
      assert a + b == b;
    } else {
      assert (a + b)[0] == a[0] && (a + b)[1..] == a[1..] + b;
      StripZeroWidthAppend(a[1..], b);
    }
  }

  /** The characters of `s` that are not separators, in order. */
  function NonSeparators(s: String): (r: String)
    ensures forall i :: 0 <= i < |r| ==> !IsSeparator(r[i])
  {
    if s == [] then []
    else (if IsSeparator(s[0]) then [] else [s[0]]) + NonSeparators(s[1..])
  }

  lemma {:induction false} NonSeparatorsAppend(a: String, b: String)
    ensures NonSeparators(a + b) == NonSeparators(a) + NonSeparators(b)
  {
    if a == [] {
      assert a + b == b;
    } else {
      var head := if IsSeparator(a[0]) then [] else [a[0]];
      assert (a + b)[0] == a[0] && (a + b)[1..] == a[1..] + b;
      NonSeparatorsAppend(a[1..], b);
      calc {
        NonSeparators(a + b);
        head + NonSeparators(a[1..] + b);
        head + (NonSeparators(a[1..]) + NonSeparators(b));
        (head + NonSeparators(a[1..])) + NonSeparators(b);
      }
    }
  }

  /** Dropping a leading separator run loses no other character. */
  lemma {:induction false} DropSeparatorsKeepsContent(s: String)
    ensures NonSeparators(DropSeparators(s)) == NonSeparators(s)
  {
    if s != [] && IsSeparator(s[0]) {
      DropSeparatorsKeepsContent(s[1..]);
    }
  }

  /** Collapsing separator runs keeps every other character, in order: only
      separators are replaced. */
  lemma {:induction false} CollapseKeepsContent(s: String)
    ensures NonSeparators(Collapse(s)) == NonSeparators(s)
    decreases |s|
  {
    if s != [] {
      if IsSeparator(s[0]) {
        var t := DropSeparators(s[1..]);
        CollapseKeepsContent(t);
        DropSeparatorsKeepsContent(s[1..]);
        NonSeparatorsAppend([' '], Collapse(t));
        assert IsSeparator(' ');
        assert NonSeparators([' ']) == [];
      } else {
        CollapseKeepsContent(s[1..]);
        NonSeparatorsAppend([s[0]], Collapse(s[1..]));
        assert NonSeparators([s[0]]) == [s[0]];
      }
    }
  }

  /** Trimming removes white space only, which is made of separators. */
  lemma TrimKeepsContent(s: String)
    ensures NonSeparators(Trim(s)) == NonSeparators(s)
  {
    TrimStartKeepsContent(s);
    TrimEndKeepsContent(TrimStart(s));
  }

  lemma {:induction false} TrimStartKeepsContent(s: String)
    ensures NonSeparators(TrimStart(s)) == NonSeparators(s)
  {
    if s != [] && IsSpace(s[0]) {
      assert IsSeparator(s[0]);
      TrimStartKeepsContent(s[1..]);
    }
  }

  lemma {:induction false} TrimEndKeepsContent(s: String)
    ensures NonSeparators(TrimEnd(s)) == NonSeparators(s)
  {
    if s != [] && IsSpace(s[|s| - 1]) {
      var init, last := s[..|s| - 1], s[|s| - 1];
      TrimEndKeepsContent(init);
      assert s == init + [last];
      NonSeparatorsAppend(init, [last]);
      assert IsSeparator(last);
      assert NonSeparators([last]) == [];
    }
  }

  /** Length of the run of non-separator characters `s` starts with. */
  function SepWordLength(s: String): (n: nat)
    ensures n <= |s|
    ensures forall i :: 0 <= i < n ==> !IsSeparator(s[i])
    ensures n < |s| ==> IsSeparator(s[n])
  {
    if s == [] || IsSeparator(s[0]) then 0 else 1 + SepWordLength(s[1..])
  }

  /** The maximal runs of non-separator characters of `s`, in order. */
  function SepWords(s: String): (r: seq<String>)
    ensures forall k :: 0 <= k < |r| ==> r[k] != []
    ensures forall k, i :: 0 <= k < |r| && 0 <= i < |r[k]| ==> !IsSeparator(r[k][i])
    decreases |s|
  {
    if s == [] then []
    else if IsSeparator(s[0]) then SepWords(s[1..])
    else
      var n := SepWordLength(s);
      [s[..n]] + SepWords(s[n..])
  }

  lemma {:induction false} SepWordsOfDrop(s: String)
    ensures SepWords(DropSeparators(s)) == SepWords(s)
  {
    if s != [] && IsSeparator(s[0]) {
      SepWordsOfDrop(s[1..]);
    }
  }

  /** A run without separators passes through `Collapse` unchanged. */
  lemma {:induction false} CollapseAfterWord(p: String, q: String)
    requires forall i :: 0 <= i < |p| ==> !IsSeparator(p[i])
    ensures Collapse(p + q) == p + Collapse(q)
  {
    if p == [] {
      assert p + q == q;
    } else {
      var c, p' := p[0], p[1..];
      calc {
        Collapse(p + q);
        { assert p + q == [c] + (p' + q); }
        Collapse([c] + (p' + q));
        { CollapseCons(c, p' + q); }
        [c] + Collapse(p' + q);
        { assert forall i :: 0 <= i < |p'| ==> p'[i] == p[i + 1];
          CollapseAfterWord(p', q); }
        [c] + (p' + Collapse(q));
        { ConsConcat(p, Collapse(q)); }
        p + Collapse(q);
      }
    }
  }

  lemma ConsConcat(p: String, r: String)
    requires p != []
    ensures [p[0]] + (p[1..] + r) == p + r
  {
    assert [p[0]] + p[1..] == p;
  }

  lemma CollapseCons(c: char, t: String)
    requires !IsSeparator(c)
    ensures Collapse([c] + t) == [c] + Collapse(t)
  {
    assert ([c] + t)[0] == c && ([c] + t)[1..] == t;
  }

  /** The words of a collapsed string are the separator-delimited words of
      the original: each separator run became exactly one word break. */
  lemma {:induction false} CollapseWords(s: String)
    ensures Words(Collapse(s)) == SepWords(s)
    decreases |s|
  {
    if s != [] {
      if IsSeparator(s[0]) {
        var d := DropSeparators(s[1..]);
        var rest := Collapse(d);
        CollapseWords(d);
        SepWordsOfDrop(s[1..]);
        assert IsSpace(' ') && ([' '] + rest)[1..] == rest;
        assert Words([' '] + rest) == Words(rest);
      } else {
        var n := SepWordLength(s);
        var p, q := s[..n], s[n..];
        assert s == p + q;
        CollapseAfterWord(p, q);
        CollapseWords(q);
        if q != [] {
          assert IsSeparator(q[0]);
          assert Collapse(q)[0] == ' ';
        }
        assert forall i :: 0 <= i < |p| ==> !IsSeparator(p[i]) ==> !IsSpace(p[i]);
        WordsOfWordThen(p, Collapse(q));
      }
    }
  }

  /** The tokens of a normalised text are the separator-delimited words of
      its NFKC, lower-cased form with the zero width characters removed. */
  lemma NormalizeWords(lib: Library, text: String)
    ensures var y := lib.toLowerCase(lib.nfkc(text));
      Words(Normalize(lib, text)) == SepWords(StripZeroWidth(y))
  {
    var c := Collapse(StripZeroWidth(lib.toLowerCase(lib.nfkc(text))));
    WordsOfTrim(c);
    CollapseWords(StripZeroWidth(lib.toLowerCase(lib.nfkc(text))));
  }

  /** What `normalize` keeps: with its single spaces taken out, the output
      is exactly the characters of the NFKC, lower-cased text that are
      neither separators nor zero width, in their order. */
  lemma NormalizeKeepsContent(lib: Library, text: String)
    ensures var y := lib.toLowerCase(lib.nfkc(text));
      NonSeparators(Normalize(lib, text)) == NonSeparators(StripZeroWidth(y))
  {
    var z := StripZeroWidth(lib.toLowerCase(lib.nfkc(text)));
    TrimKeepsContent(Collapse(z));
    CollapseKeepsContent(z);
  }

  /** A normal form is its words joined by single spaces: splitting on white
      space loses nothing and `join(" ")` undoes it. */
  lemma {:induction false} JoinWordsOfNormalForm(n: String)
    requires IsNormalForm(n)
    ensures Join(Words(n), " ") == n
    decreases |n|
  {
    if n != [] {
      var w := FirstWord(n);
      if w < |n| {
        var m := n[w + 1..];
        JoinWordsOfNormalForm(m);
        NormalFormWords(m);
        var parts := Words(n);
        assert parts[1..] == Words(m);
        assert Join(parts, " ") == n[..w] + " " + Join(Words(m), " ");
      }
    }
  }

  /** A non-empty normal form starts with a word, followed either by nothing
      or by one space and a shorter normal form. */
  lemma FirstWord(n: String) returns (w: nat)
    requires IsNormalForm(n) && n != []
    ensures 0 < w <= |n| && w == WordLength(n)
    ensures w == |n| ==> Words(n) == [n]
    ensures w < |n| ==> && w + 1 < |n|
                        && n == n[..w] + " " + n[w + 1..]
                        && IsNormalForm(n[w + 1..])
                        && Words(n) == [n[..w]] + Words(n[w + 1..])
  {
    assert IsSeparator(' ');
    assert !IsSpace(n[0]);
    w := WordLength(n);
    if w < |n| {
      assert n[w] == ' ';
      assert w + 1 < |n| by { assert !IsSpace(n[|n| - 1]); }
      assert n[w + 1] != ' ';
      SliceKeepsCollapsed(n, w + 1, |n|);
      assert n[w..][1..] == n[w + 1..];
      assert n == n[..w] + " " + n[w + 1..];
    } else {
      assert n[..w] == n;
      assert Words(n[w..]) == [];
    }
  }

  // ---------------------------------------------------------------------------
  // safeDecode

  /** At most `budget` further decode steps from `value`, stopping at the first
      step that fails or changes nothing. */
  function DecodeSteps(decode: String -> Option<String>, value: String, budget: nat): String
    decreases budget
  {
    if budget == 0 then value
    else match decode(value)
      case None => value
      case Some(d) => if d == value then value else DecodeSteps(decode, d, budget - 1)
  }

  /** The value the source's `safeDecode` returns. */
  function Decoded(lib: Library, text: String): String {
    if text == [] then [] else DecodeSteps(lib.decodeComponent, ReplaceAll(text, '+', "%20"), 2)
  }

  /** `safeDecode`: `+` becomes `%20`, then up to two rounds of
      `decodeURIComponent`, leaving the loop on a failure or a no-op. */
  method SafeDecode(lib: Library, text: String) returns (value: String)
    ensures value == Decoded(lib, text)
  {
    if text == [] {
      return [];
    }
    value := ReplaceAll(text, '+', "%20");
    for i := 0 to 2
      invariant DecodeSteps(lib.decodeComponent, value, 2 - i) == Decoded(lib, text)
    {
      var decoded := lib.decodeComponent(value);
      if decoded.None? {
        break;
      }
      if decoded.value == value {
        break;
      }
      value := decoded.value;
    }
  }

  /** `k` successful decode steps from `v`; None when one of them fails. */
  function Iterate(decode: String -> Option<String>, v: String, k: nat): Option<String>
    decreases k
  {
    if k == 0 then Some(v)
    else match decode(v)
      case None => None
      case Some(d) => Iterate(decode, d, k - 1)
  }

  /** One more decode step would fail or change nothing. */
  predicate Settled(decode: String -> Option<String>, v: String) {
    decode(v).None? || decode(v) == Some(v)
  }

  /** Each of the first `k` decode steps from `v` changed the value. */
  predicate ChangingRun(decode: String -> Option<String>, v: String, k: nat) {
    forall j :: 0 <= j < k ==> Iterate(decode, v, j) != Iterate(decode, v, j + 1)
  }

  lemma {:induction false} DecodeStepsRun(decode: String -> Option<String>, v: String, budget: nat)
    ensures exists k :: (0 <= k <= budget
      && Iterate(decode, v, k) == Some(DecodeSteps(decode, v, budget))
      && ChangingRun(decode, v, k)
      && (k < budget ==> Settled(decode, DecodeSteps(decode, v, budget))))
    decreases budget
  {
    if budget == 0 {
      assert Iterate(decode, v, 0) == Some(v) && ChangingRun(decode, v, 0);
    } else if Settled(decode, v) {
      assert Iterate(decode, v, 0) == Some(v) && ChangingRun(decode, v, 0);
    } else {
      var d := decode(v).value;
      var r := DecodeSteps(decode, v, budget);
      assert r == DecodeSteps(decode, d, budget - 1);
      DecodeStepsRun(decode, d, budget - 1);
      var k :| 0 <= k <= budget - 1
        && Iterate(decode, d, k) == Some(r)
        && ChangingRun(decode, d, k)
        && (k < budget - 1 ==> Settled(decode, r));
      assert Iterate(decode, v, k + 1) == Some(r);
      forall j | 0 <= j < k + 1
        ensures Iterate(decode, v, j) != Iterate(decode, v, j + 1)
      {
        if j == 0 {
          assert Iterate(decode, v, 1) == Iterate(decode, d, 0) == Some(d);
        } else {
          assert Iterate(decode, v, j) == Iterate(decode, d, j - 1);
          assert Iterate(decode, v, j + 1) == Iterate(decode, d, j);
        }
      }
    }
  }

  lemma {:induction false} ReplacePlusLeavesNoPlus(s: String)
    ensures '+' !in ReplaceAll(s, '+', "%20")
  {
    if s != [] {
      ReplacePlusLeavesNoPlus(s[1..]);
    }
  }

  /** `safeDecode` gives "" for "", and otherwise the value reached from the
      `+`-free text by at most two decode steps, each of which changed it;
      it stops early only where a further step would fail or do nothing. */
  lemma SafeDecodeIsBoundedDecoding(lib: Library, text: String)
    ensures text == [] ==> Decoded(lib, text) == []
    ensures text != [] ==>
      var start := ReplaceAll(text, '+', "%20");
      var r := Decoded(lib, text);
      '+' !in start
      && exists k :: (0 <= k <= 2
        && Iterate(lib.decodeComponent, start, k) == Some(r)
        && ChangingRun(lib.decodeComponent, start, k)
        && (k < 2 ==> Settled(lib.decodeComponent, r)))
  {
    if text != [] {
      ReplacePlusLeavesNoPlus(text);
      DecodeStepsRun(lib.decodeComponent, ReplaceAll(text, '+', "%20"), 2);
    }
  }

  // ---------------------------------------------------------------------------
  // extractUrlText

  /** The `params` array: key, value, decoded key, decoded value for each
      query parameter in order. */
  function ParamWords(lib: Library, params: seq<(String, String)>): (r: seq<String>)
    ensures |r| == 4 * |params|
  {
    if params == [] then []
    else
      var (k, v) := params[|params| - 1];
      ParamWords(lib, params[..|params| - 1]) + [k, v, Decoded(lib, k), Decoded(lib, v)]
  }

  /** The searchable text the source's `extractUrlText` builds for a URL. */
  function UrlText(lib: Library, url: String): String {
    if url == [] then []
    else
      var base := url + " " + Decoded(lib, url);
      match lib.parseUrl(url)
      case None => base
      case Some(u) =>
        base + " " + u.hostname + " " + Decoded(lib, u.hostname) + " " + u.pathname
        + " " + Decoded(lib, u.pathname) + " " + Join(ParamWords(lib, u.searchParams), " ")
  }

  /** `extractUrlText`: the raw and decoded URL, then, if the URL parses,
      host, path and every query key and value, raw and decoded. */
  method ExtractUrlText(lib: Library, url: String) returns (joined: String)
    ensures joined == UrlText(lib, url)
  {
    if url == [] {
      return [];
    }
    var decodedUrl := SafeDecode(lib, url);
    joined := url + " " + decodedUrl;
    var parsed := lib.parseUrl(url);
    if parsed.Some? {
      var u := parsed.value;
      var params: seq<String> := [];
      var i := 0;
      while i < |u.searchParams|
        invariant 0 <= i <= |u.searchParams|
        invariant params == ParamWords(lib, u.searchParams[..i])
      {
        var (k, v) := u.searchParams[i];
        var dk := SafeDecode(lib, k);
        var dv := SafeDecode(lib, v);
        ParamWordsStep(lib, u.searchParams, i);
        params := params + [k, v, dk, dv];
        i := i + 1;
      }
      assert u.searchParams[..i] == u.searchParams;
      var dh := SafeDecode(lib, u.hostname);
      var dp := SafeDecode(lib, u.pathname);
      joined := joined + " " + u.hostname + " " + dh + " " + u.pathname + " " + dp + " " + Join(params, " ");
      UrlTextParsed(lib, url, u);
    } else {
      UrlTextDegrades(lib, url);
    }
  }

  lemma ParamWordsStep(lib: Library, params: seq<(String, String)>, i: nat)
    requires i < |params|
    ensures var (k, v) := params[i];
      ParamWords(lib, params[..i + 1]) == ParamWords(lib, params[..i]) + [k, v, Decoded(lib, k), Decoded(lib, v)]
  {
    assert params[..i + 1][..i] == params[..i];
  }

  lemma UrlTextParsed(lib: Library, url: String, u: ParsedUrl)
    requires url != [] && lib.parseUrl(url) == Some(u)
    ensures UrlText(lib, url) == url + " " + Decoded(lib, url) + " " + u.hostname + " " + Decoded(lib, u.hostname)
      + " " + u.pathname + " " + Decoded(lib, u.pathname) + " " + Join(ParamWords(lib, u.searchParams), " ")
  {
  }

  /** The blob is "" for "", exactly the raw and decoded URL when the URL does
      not parse, and starts with them when it does. */
  lemma UrlTextDegrades(lib: Library, url: String)
    ensures url == [] ==> UrlText(lib, url) == []
    ensures url != [] && lib.parseUrl(url).None? ==> UrlText(lib, url) == url + " " + Decoded(lib, url)
    ensures url != [] ==> url + " " + Decoded(lib, url) <= UrlText(lib, url)
  {
  }

  lemma {:induction false} ParamWordsHasParam(lib: Library, params: seq<(String, String)>, p: int)
    requires 0 <= p < |params|
    ensures var w := ParamWords(lib, params);
      w[4 * p] == params[p].0 && w[4 * p + 1] == params[p].1
      && w[4 * p + 2] == Decoded(lib, params[p].0) && w[4 * p + 3] == Decoded(lib, params[p].1)
  {
    if p < |params| - 1 {
      ParamWordsHasParam(lib, params[..|params| - 1], p);
      assert params[..|params| - 1][p] == params[p];
    }
  }

  /** The prefixes `UrlText` is built from, in order: raw and decoded URL,
      then host, decoded host, path and decoded path each after a space. */
  lemma UrlTextPrefixes(lib: Library, url: String, u: ParsedUrl)
    requires url != [] && lib.parseUrl(url) == Some(u)
    ensures var t := UrlText(lib, url);
      var c0 := url + " " + Decoded(lib, url);
      var c1 := c0 + " " + u.hostname;
      var c2 := c1 + " " + Decoded(lib, u.hostname);
      var c3 := c2 + " " + u.pathname;
      var c4 := c3 + " " + Decoded(lib, u.pathname);
      url <= t && c0 <= t && c1 <= t && c2 <= t && c3 <= t && c4 <= t
      && t == c4 + " " + Join(ParamWords(lib, u.searchParams), " ")
  {
    var t := UrlText(lib, url);
    var c0 := url + " " + Decoded(lib, url);
    var c1 := c0 + " " + u.hostname;
    var c2 := c1 + " " + Decoded(lib, u.hostname);
    var c3 := c2 + " " + u.pathname;
    var c4 := c3 + " " + Decoded(lib, u.pathname);
    var j := Join(ParamWords(lib, u.searchParams), " ");
    assert t == c4 + " " + j;
    PrefixStep(c4 + " ", j, t);
    PrefixStep(c4, " ", t);
    PrefixStep(c3 + " ", Decoded(lib, u.pathname), t);
    PrefixStep(c3, " ", t);
    PrefixStep(c2 + " ", u.pathname, t);
    PrefixStep(c2, " ", t);
    PrefixStep(c1 + " ", Decoded(lib, u.hostname), t);
    PrefixStep(c1, " ", t);
    PrefixStep(c0 + " ", u.hostname, t);
    PrefixStep(c0, " ", t);
    PrefixStep(url + " ", Decoded(lib, url), t);
    PrefixStep(url, " ", t);
  }

  /** What starts with `a + b` starts with `a`. */
  lemma PrefixStep(a: String, b: String, t: String)
    requires a + b <= t
    ensures a <= t
  {
    assert t[..|a|] == (a + b)[..|a|];
  }

  lemma IncludesSuffix(a: String, x: String)
    ensures Includes(a + x, x)
  {
    IncludesAt(a + x, x, |a|);
  }

  /** When the URL parses, the raw and decoded URL, host and path all occur
      in the blob: a query for any of them can match. */
  lemma UrlTextCoversParts(lib: Library, url: String, u: ParsedUrl)
    requires url != [] && lib.parseUrl(url) == Some(u)
    ensures var t := UrlText(lib, url);
      Includes(t, url) && Includes(t, Decoded(lib, url))
      && Includes(t, u.hostname) && Includes(t, Decoded(lib, u.hostname))
      && Includes(t, u.pathname) && Includes(t, Decoded(lib, u.pathname))
  {
    var t := UrlText(lib, url);
    var c0 := url + " " + Decoded(lib, url);
    var c1 := c0 + " " + u.hostname;
    var c2 := c1 + " " + Decoded(lib, u.hostname);
    var c3 := c2 + " " + u.pathname;
    var c4 := c3 + " " + Decoded(lib, u.pathname);
    UrlTextPrefixes(lib, url, u);
    IncludesSuffix([], url);
    IncludesInPrefix([] + url, t, url);
    IncludesSuffix(url + " ", Decoded(lib, url));
    IncludesInPrefix(c0, t, Decoded(lib, url));
    IncludesSuffix(c0 + " ", u.hostname);
    IncludesInPrefix(c1, t, u.hostname);
    IncludesSuffix(c1 + " ", Decoded(lib, u.hostname));
    IncludesInPrefix(c2, t, Decoded(lib, u.hostname));
    IncludesSuffix(c2 + " ", u.pathname);
    IncludesInPrefix(c3, t, u.pathname);
    IncludesSuffix(c3 + " ", Decoded(lib, u.pathname));
    IncludesInPrefix(c4, t, Decoded(lib, u.pathname));
  }

  /** When the URL parses, every query parameter's key and value, raw and
      decoded, occur in the blob. */
  lemma UrlTextCoversParams(lib: Library, url: String, u: ParsedUrl, p: int)
    requires url != [] && lib.parseUrl(url) == Some(u)
    requires 0 <= p < |u.searchParams|
    ensures var t := UrlText(lib, url);
      var (k, v) := u.searchParams[p];
      Includes(t, k) && Includes(t, v) && Includes(t, Decoded(lib, k)) && Includes(t, Decoded(lib, v))
  {
    var t := UrlText(lib, url);
    var words := ParamWords(lib, u.searchParams);
    var j := Join(words, " ");
    UrlTextPrefixes(lib, url, u);
    var front := url + " " + Decoded(lib, url) + " " + u.hostname + " " + Decoded(lib, u.hostname)
                 + " " + u.pathname + " " + Decoded(lib, u.pathname) + " ";
    assert t == front + j;
    ParamWordsHasParam(lib, u.searchParams, p);
    IncludesInConcat(front, j, words[4 * p]);
    IncludesInConcat(front, j, words[4 * p + 1]);
    IncludesInConcat(front, j, words[4 * p + 2]);
    IncludesInConcat(front, j, words[4 * p + 3]);
  }
}
