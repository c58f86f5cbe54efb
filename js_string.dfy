/** The few ECMAScript string operations the search pipeline relies on:
    `.length`, `trim()`, `replace`/`replaceAll` of one character,
    `includes`, `split(/\s+/).filter(Boolean)` and `join`.
    A JavaScript string is modelled as a sequence of Unicode scalar values. */
module JsString {

  datatype Option<+T> = None | Some(value: T)

  type String = seq<char>

  /** The characters matched by `\s` in a regular expression and removed by
      `trim()`: ECMAScript WhiteSpace (tab, vertical tab, form feed, space,
      no-break space, byte order mark, the Zs category) and LineTerminator. */
  predicate IsSpace(c: char) {
    c == '\t' || c == '\n' || c == '\U{000B}' || c == '\U{000C}' || c == '\r'
    || c == ' ' || c == '\U{00A0}' || c == '\U{1680}'
    || ('\U{2000}' <= c <= '\U{200A}')
    || c == '\U{2028}' || c == '\U{2029}' || c == '\U{202F}' || c == '\U{205F}'
    || c == '\U{3000}' || c == '\U{FEFF}'
  }

  /** The characters that `.` does not match in a regular expression. */
  predicate IsLineTerminator(c: char) {
    c == '\n' || c == '\r' || c == '\U{2028}' || c == '\U{2029}'
  }

  /** `s.length`: the number of UTF-16 code units, so a character outside the
      Basic Multilingual Plane counts twice. */
  function JsLength(s: String): (n: nat)
    ensures |s| <= n <= 2 * |s|
    ensures (forall i :: 0 <= i < |s| ==> s[i] as int < 0x1_0000) ==> n == |s|
    ensures |s| == 1 && s[0] as int >= 0x1_0000 ==> n == 2
  {
    if s == [] then 0
    else (if s[0] as int < 0x1_0000 then 1 else 2) + JsLength(s[1..])
  }

  /** The length of a concatenation is the sum of the lengths, so every
      character counts on its own: one unit inside the Basic Multilingual
      Plane, two (a surrogate pair) outside it. */
  lemma {:induction false} JsLengthAppend(a: String, b: String)
    ensures JsLength(a + b) == JsLength(a) + JsLength(b)
  {
    if a == [] {
      assert a + b == b;
    } else {
      assert (a + b)[0] == a[0] && (a + b)[1..] == a[1..] + b;
      JsLengthAppend(a[1..], b);
    }
  }

  /** `s.trimStart()`: what is removed is white space, and what remains does
      not start with white space. */
  function TrimStart(s: String): (r: String)
    ensures |r| <= |s| && r == s[|s| - |r|..]
    ensures forall i :: 0 <= i < |s| - |r| ==> IsSpace(s[i])
    ensures r != [] ==> !IsSpace(r[0])
  {
    if s != [] && IsSpace(s[0]) then TrimStart(s[1..]) else s
  }

  /** `s.trimEnd()`. */
  function TrimEnd(s: String): (r: String)
    ensures |r| <= |s| && r == s[..|r|]
    ensures forall i :: |r| <= i < |s| ==> IsSpace(s[i])
    ensures r != [] ==> !IsSpace(r[|r| - 1])
  {
    if s != [] && IsSpace(s[|s| - 1]) then TrimEnd(s[..|s| - 1]) else s
  }

  /** `s.trim()`: the slice of `s` left after removing white space at both ends. */
  function Trim(s: String): (r: String)
    ensures exists a, b :: 0 <= a <= b <= |s| && r == s[a..b]
                           && (forall i :: 0 <= i < a ==> IsSpace(s[i]))
                           && (forall i :: b <= i < |s| ==> IsSpace(s[i]))
    ensures r != [] ==> !IsSpace(r[0]) && !IsSpace(r[|r| - 1])
  {
    var t := TrimStart(s);
    var r := TrimEnd(t);
    assert r == s[|s| - |t|..|s| - |t| + |r|];
    r
  }

  /** `s.replaceAll(c, rep)` for a one-character pattern. */
  function ReplaceAll(s: String, c: char, rep: String): (r: String)
    ensures |rep| >= 1 ==> |s| <= |r|
  {
    if s == [] then []
    else (if s[0] == c then rep else [s[0]]) + ReplaceAll(s[1..], c, rep)
  }

  lemma {:induction false} ReplaceAllAppend(a: String, b: String, c: char, rep: String)
    ensures ReplaceAll(a + b, c, rep) == ReplaceAll(a, c, rep) + ReplaceAll(b, c, rep)
  {
    if a != [] {
      var head := if a[0] == c then rep else [a[0]];
      assert (a + b)[0] == a[0] && (a + b)[1..] == a[1..] + b;
      ReplaceAllAppend(a[1..], b, c, rep);
      calc {
        ReplaceAll(a + b, c, rep);
        head + ReplaceAll(a[1..] + b, c, rep);
        head + (ReplaceAll(a[1..], c, rep) + ReplaceAll(b, c, rep));
        (head + ReplaceAll(a[1..], c, rep)) + ReplaceAll(b, c, rep);
      }
    } else {
      assert a + b == b;
    }
  }

  /** `hay.includes(t)`: `t` occurs in `hay` at some position. */
  predicate Includes(hay: String, t: String)
    ensures Includes(hay, t) ==> |t| <= |hay|
    ensures t == [] ==> Includes(hay, t)
  {
    assert t == [] ==> OccursAt(hay, t, 0);
    exists i :: 0 <= i <= |hay| - |t| && OccursAt(hay, t, i)
  }

  /** `t` occurs in `hay` starting at index `i`. */
  predicate OccursAt(hay: String, t: String, i: int) {
    0 <= i <= |hay| - |t| && hay[i..i + |t|] == t
  }

  lemma IncludesAt(hay: String, t: String, i: int)
    requires 0 <= i <= |hay| - |t| && hay[i..i + |t|] == t
    ensures Includes(hay, t)
  {
    assert OccursAt(hay, t, i);
  }

  /** Every occurrence inside a part of a concatenation is an occurrence in
      the whole. */
  lemma IncludesInConcat(a: String, b: String, t: String)
    ensures Includes(a, t) ==> Includes(a + b, t)
    ensures Includes(b, t) ==> Includes(a + b, t)
  {
    if Includes(a, t) {
      var i :| 0 <= i <= |a| - |t| && OccursAt(a, t, i);
      assert (a + b)[i..i + |t|] == a[i..i + |t|];
      IncludesAt(a + b, t, i);
    }
    if Includes(b, t) {
      var i :| 0 <= i <= |b| - |t| && OccursAt(b, t, i);
      assert (a + b)[|a| + i..|a| + i + |t|] == b[i..i + |t|];
      IncludesAt(a + b, t, |a| + i);
    }
  }

  lemma IncludesInPrefix(a: String, t: String, x: String)
    requires a <= t && Includes(a, x)
    ensures Includes(t, x)
  {
    var i :| 0 <= i <= |a| - |x| && OccursAt(a, x, i);
    assert t[i..i + |x|] == a[i..i + |x|];
    IncludesAt(t, x, i);
  }

  /** Length of the run of non-white-space characters `s` starts with. */
  function WordLength(s: String): (n: nat)
    ensures n <= |s|
    ensures forall i :: 0 <= i < n ==> !IsSpace(s[i])
    ensures n < |s| ==> IsSpace(s[n])
  {
    if s == [] || IsSpace(s[0]) then 0 else 1 + WordLength(s[1..])
  }

  /** `s.split(/\s+/).filter(Boolean)`: the maximal runs of non-white-space
      characters of `s`, in order. */
  function Words(s: String): (r: seq<String>)
    ensures forall k :: 0 <= k < |r| ==> r[k] != [] && Includes(s, r[k])
    ensures forall k, i :: 0 <= k < |r| && 0 <= i < |r[k]| ==> !IsSpace(r[k][i])
    ensures r == [] <==> forall i :: 0 <= i < |s| ==> IsSpace(s[i])
    decreases |s|
  {
    if s == [] then []
    else if IsSpace(s[0]) then
      var r := Words(s[1..]);
      forall k | 0 <= k < |r| ensures Includes(s, r[k]) {
        assert s == [s[0]] + s[1..];
        IncludesInConcat([s[0]], s[1..], r[k]);
      }
      r
    else
      var n := WordLength(s);
      var rest := Words(s[n..]);
      var r := [s[..n]] + rest;
      assert s == s[..n] + s[n..];
      IncludesAt(s, s[..n], 0);
      forall k | 1 <= k < |r| ensures Includes(s, r[k]) {
        IncludesInConcat(s[..n], s[n..], r[k]);
      }
      r
  }

  /** A run without white space followed by white space (or nothing) is the
      first word. */
  lemma WordsOfWordThen(p: String, t: String)
    requires p != [] && forall i :: 0 <= i < |p| ==> !IsSpace(p[i])
    requires t == [] || IsSpace(t[0])
    ensures Words(p + t) == [p] + Words(t)
  {
    var s := p + t;
    SameWordLength(s, s, |p|);
    assert s[..|p|] == p && s[|p|..] == t;
  }

  /** White space before the text does not change its words. */
  lemma {:induction false} WordsOfTrimStart(s: String)
    ensures Words(TrimStart(s)) == Words(s)
  {
    if s != [] && IsSpace(s[0]) {
      WordsOfTrimStart(s[1..]);
    }
  }

  /** One white-space character after the text does not change its words. */
  lemma {:induction false} WordsSpaceAfter(s: String, sp: char)
    requires IsSpace(sp)
    ensures Words(s + [sp]) == Words(s)
    decreases |s|
  {
    var t := s + [sp];
    if s == [] {
      assert t[1..] == [];
    } else if IsSpace(s[0]) {
      assert t[0] == s[0] && t[1..] == s[1..] + [sp];
      WordsSpaceAfter(s[1..], sp);
    } else {
      var n := WordLength(s);
      SameWordLength(s, t, n);
      assert t[..n] == s[..n] && t[n..] == s[n..] + [sp];
      WordsSpaceAfter(s[n..], sp);
    }
  }

  /** `WordLength` is fixed by its two boundary facts. */
  lemma {:induction false} SameWordLength(s: String, t: String, n: nat)
    requires n <= |s| <= |t| && s == t[..|s|]
    requires forall i :: 0 <= i < n ==> !IsSpace(s[i])
    requires n < |t| ==> IsSpace(t[n])
    ensures WordLength(t) == n
    decreases n
  {
    if n > 0 {
      assert t[0] == s[0];
      var s', t' := s[1..], t[1..];
      assert forall i :: 0 <= i < n - 1 ==> s'[i] == s[i + 1];
      assert s' == t'[..|s'|];
      assert n - 1 < |t'| ==> t'[n - 1] == t[n];
      SameWordLength(s', t', n - 1);
    }
  }

  /** White space after the text does not change its words. */
  lemma {:induction false} WordsOfTrimEnd(s: String)
    ensures Words(TrimEnd(s)) == Words(s)
  {
    if s != [] && IsSpace(s[|s| - 1]) {
      var init := s[..|s| - 1];
      WordsOfTrimEnd(init);
      assert s == init + [s[|s| - 1]];
      WordsSpaceAfter(init, s[|s| - 1]);
    }
  }

  /** `trim()` does not change the words of a string. */
  lemma WordsOfTrim(s: String)
    ensures Words(Trim(s)) == Words(s)
  {
    WordsOfTrimStart(s);
    WordsOfTrimEnd(TrimStart(s));
  }

  /** `parts.join(sep)`. */
  function Join(parts: seq<String>, sep: String): (r: String)
    ensures forall k :: 0 <= k < |parts| ==> Includes(r, parts[k])
    ensures parts == [] ==> r == []
  {
    if parts == [] then []
    else if |parts| == 1 then
      IncludesAt(parts[0], parts[0], 0);
      parts[0]
    else
      var rest := Join(parts[1..], sep);
      var r := parts[0] + sep + rest;
      forall k | 0 <= k < |parts| ensures Includes(r, parts[k]) {
        if k == 0 {
          IncludesAt(r, parts[0], 0);
        } else {
          assert parts[k] == parts[1..][k - 1];
          IncludesInConcat(parts[0] + sep, rest, parts[k]);
        }
      }
      r
  }
}
