/** Models of the JavaScript built-ins the core calls: string slicing and
    searching, `trim`, `Array.prototype.splice`'s start index, number to
    string conversion, lodash's `uniq`, and array `filter` and `join`. */
module Js {

  /** Clamps `i` into the range `lo..hi`. */
  function Clamp(i: int, lo: int, hi: int): (r: int)
    requires lo <= hi
    ensures lo <= r <= hi
    ensures lo <= i <= hi ==> r == i
  {
    if i < lo then lo else if i > hi then hi else i
  }

  // ---------------------------------------------------------------------
  // String.prototype.substring and String.prototype.substr

  /** `s.substring(start, end)`: both indices are clamped to `0..|s|`, and
      they are swapped when `start` exceeds `end`. */
  function Substring(s: string, start: int, end: int): string
  {
    var a, b := Clamp(start, 0, |s|), Clamp(end, 0, |s|);
    if a <= b then s[a..b] else s[b..a]
  }

  /** A negative end index makes `substring` return the text before the
      (clamped) start index: `"abcdef".substring(2, -1) == "ab"`. */
  lemma SubstringNegativeEnd(s: string, start: int, end: int)
    requires end < 0
    ensures Substring(s, start, end) == s[..Clamp(start, 0, |s|)]
  {
  }

  /** `s.substr(start)`: a negative start counts from the end. */
  function SubstrFrom(s: string, start: int): (r: string)
    ensures 0 <= start <= |s| ==> r == s[start..]
    ensures start > |s| ==> r == ""
  {
    var a := if start < 0 then Clamp(|s| + start, 0, |s|) else Clamp(start, 0, |s|);
    s[a..]
  }

  // ---------------------------------------------------------------------
  // indexOf and startsWith

  /** `s.indexOf(c, k)` on a string: the first position at or after `k`
      that holds `c`, or -1 when there is none (CharIndexFirst). */
  function CharIndex(s: string, c: char, k: nat): (r: int)
    requires k <= |s|
    ensures r == -1 || k <= r < |s|
    ensures 0 <= r ==> s[r] == c
    decreases |s| - k
  {
    if k == |s| then -1 else if s[k] == c then k else CharIndex(s, c, k + 1)
  }

  /** CharIndex finds the first occurrence at or after `k`, and -1 exactly
      when there is none. */
  lemma {:induction false} CharIndexFirst(s: string, c: char, k: nat)
    requires k <= |s|
    ensures CharIndex(s, c, k) == -1 <==> forall m :: k <= m < |s| ==> s[m] != c
    ensures forall m :: k <= m < CharIndex(s, c, k) ==> s[m] != c
    decreases |s| - k
  {
    if k < |s| && s[k] != c {
      CharIndexFirst(s, c, k + 1);
    }
  }

  /** `a.indexOf(x)` on an array: the first position of `x`, or -1. */
  function IndexOf<T(==)>(s: seq<T>, x: T): (r: int)
    ensures -1 <= r < |s|
    ensures r == -1 <==> x !in s
    ensures 0 <= r ==> s[r] == x && x !in s[..r]
  {
    if s == [] then -1
    else if s[0] == x then 0
    else
      var t := IndexOf(s[1..], x);
      if t < 0 then -1 else t + 1
  }

  /** The position of an element other than the head is one past its
      position in the tail. */
  lemma IndexOfTail<T>(s: seq<T>, x: T)
    requires s != [] && s[0] != x
    ensures IndexOf(s, x) == (if x in s[1..] then IndexOf(s[1..], x) + 1 else -1)
  {
  }

  /** `s.startsWith(p)`. */
  predicate StartsWith<T(==)>(s: seq<T>, p: seq<T>)
  {
    |p| <= |s| && s[..|p|] == p
  }

  // ---------------------------------------------------------------------
  // String.prototype.trim

  /** The characters ECMAScript's `trim` removes: WhiteSpace (tab, vertical
      tab, form feed, no-break space, byte order mark and the Unicode space
      separators) and LineTerminator (LF, CR, LS, PS). */
  predicate IsWhiteSpace(c: char)
  {
    || c == '\t' || c == '\U{000B}' || c == '\U{000C}' || c == ' '
    || c == '\U{00A0}' || c == '\U{FEFF}' || c == '\U{1680}'
    || ('\U{2000}' <= c <= '\U{200A}')
    || c == '\U{202F}' || c == '\U{205F}' || c == '\U{3000}'
    || c == '\n' || c == '\r' || c == '\U{2028}' || c == '\U{2029}'
  }

  /** The number of white-space characters `s` starts with. */
  function LeadingWhiteSpace(s: string): (n: nat)
    ensures n <= |s|
    ensures forall k :: 0 <= k < n ==> IsWhiteSpace(s[k])
    ensures n < |s| ==> !IsWhiteSpace(s[n])
  {
    if s == [] || !IsWhiteSpace(s[0]) then 0 else 1 + LeadingWhiteSpace(s[1..])
  }

  /** The number of white-space characters `s` ends with. */
  function TrailingWhiteSpace(s: string): (n: nat)
    ensures n <= |s|
    ensures forall k :: |s| - n <= k < |s| ==> IsWhiteSpace(s[k])
    ensures n < |s| ==> !IsWhiteSpace(s[|s| - n - 1])
  {
    if s == [] || !IsWhiteSpace(s[|s| - 1]) then 0 else 1 + TrailingWhiteSpace(s[..|s| - 1])
  }

  /** `s.trim()`: the slice of `s` left after removing white space at both
      ends. */
  function Trim(s: string): string
  {
    var a := LeadingWhiteSpace(s);
    s[a..|s| - TrailingWhiteSpace(s[a..])]
  }

  /** The trimmed text is the slice after the leading white space, and only
      white space follows it. */
  lemma TrimSlice(s: string)
    ensures var a, r := LeadingWhiteSpace(s), Trim(s);
      && a + |r| <= |s| && r == s[a..a + |r|]
      && forall k :: a + |r| <= k < |s| ==> IsWhiteSpace(s[k])
  {
    var a := LeadingWhiteSpace(s);
    var t := s[a..];
    var b := TrailingWhiteSpace(t);
    assert Trim(s) == s[a..|s| - b];
    forall k | |s| - b <= k < |s| ensures IsWhiteSpace(s[k]) {
      assert |t| - b <= k - a < |t| && s[k] == t[k - a];
    }
  }

  /** Trimmed text that is not empty starts and ends with a character that
      is not white space. */
  lemma TrimEnds(s: string)
    ensures var r := Trim(s); r != [] ==> !IsWhiteSpace(r[0]) && !IsWhiteSpace(r[|r| - 1])
  {
    var a := LeadingWhiteSpace(s);
    var t := s[a..];
    var b := TrailingWhiteSpace(t);
    var r := Trim(s);
    if r != [] {
      assert r[0] == s[a];
      assert r[|r| - 1] == t[|t| - b - 1];
    }
  }

  /** Trimming gives the empty string exactly when `s` is all white space. */
  lemma TrimEmpty(s: string)
    ensures Trim(s) == [] <==> forall k :: 0 <= k < |s| ==> IsWhiteSpace(s[k])
  {
    TrimSlice(s);
    TrimEnds(s);
    var a := LeadingWhiteSpace(s);
    if Trim(s) != [] {
      assert s[a] == Trim(s)[0];
    }
  }

  /** Trimming removes nothing from text that has no white space at its
      ends. */
  lemma TrimUnpadded(s: string)
    requires s != [] ==> !IsWhiteSpace(s[0]) && !IsWhiteSpace(s[|s| - 1])
    ensures Trim(s) == s
  {
    if s != [] {
      assert LeadingWhiteSpace(s) == 0;
      assert TrailingWhiteSpace(s) == 0;
    }
  }

  // ---------------------------------------------------------------------
  // Character replacement (`s.replace(/c/g, ...)`)

  /** `s.replace(/c/g, t)`: every occurrence of the character `c` replaced
      by the text `t`. */
  function ReplaceChar(s: string, c: char, t: string): string
  {
    if s == [] then ""
    else (if s[0] == c then t else [s[0]]) + ReplaceChar(s[1..], c, t)
  }

  /** `s.replace(/c/g, '')`: every occurrence of `c` removed, the other
      characters kept. */
  function RemoveChar(s: string, c: char): (r: string)
    ensures c !in r
    ensures forall d :: d != c ==> (d in r <==> d in s)
  {
    if s == [] then ""
    else (if s[0] == c then "" else [s[0]]) + RemoveChar(s[1..], c)
  }

  lemma {:induction false} ReplaceCharAppend(a: string, b: string, c: char, t: string)
    ensures ReplaceChar(a + b, c, t) == ReplaceChar(a, c, t) + ReplaceChar(b, c, t)
  {
    if a != [] {
      var h := if a[0] == c then t else [a[0]];
      assert (a + b)[0] == a[0] && (a + b)[1..] == a[1..] + b;
      ReplaceCharAppend(a[1..], b, c, t);
      calc {
        ReplaceChar(a + b, c, t);
        h + ReplaceChar(a[1..] + b, c, t);
        h + (ReplaceChar(a[1..], c, t) + ReplaceChar(b, c, t));
        (h + ReplaceChar(a[1..], c, t)) + ReplaceChar(b, c, t);
      }
    } else {
      assert a + b == b;
    }
  }

  /** Replacing `c` by `t` in `s[k..]` is splitting it at each `c` and
      joining the pieces with `t`. */
  lemma {:induction false} ReplaceCharSplitFrom(s: string, c: char, t: string, k: nat)
    requires k <= |s|
    ensures ReplaceChar(s[k..], c, t) == Join(SplitOnFrom(s, c, k), t)
    decreases |s| - k
  {
    var i := CharIndex(s, c, k);
    if i < 0 {
      ReplaceCharNone(s, c, t, k);
    } else {
      var rest := SplitOnFrom(s, c, i + 1);
      ReplaceCharSplitFrom(s, c, t, i + 1);
      JoinCons(s[k..i], rest, t);
      ReplaceCharAt(s, c, t, k, i);
    }
  }

  lemma ReplaceCharNone(s: string, c: char, t: string, k: nat)
    requires k <= |s| && CharIndex(s, c, k) < 0
    ensures ReplaceChar(s[k..], c, t) == s[k..]
  {
    CharIndexFirst(s, c, k);
    assert forall m :: 0 <= m < |s| - k ==> s[k..][m] == s[k + m];
    ReplaceCharWithout(s[k..], c, t);
  }

  /** A text without `c` is left as it is. */
  lemma {:induction false} ReplaceCharWithout(s: string, c: char, t: string)
    requires c !in s
    ensures ReplaceChar(s, c, t) == s
  {
    if s != [] {
      assert s[0] != c;
      ReplaceCharWithout(s[1..], c, t);
    }
  }

  /** The text before the first `c` is kept, and that `c` becomes `t`. */
  lemma ReplaceCharAt(s: string, c: char, t: string, k: nat, i: int)
    requires k <= |s| && i == CharIndex(s, c, k) && 0 <= i
    ensures ReplaceChar(s[k..], c, t) == s[k..i] + t + ReplaceChar(s[i + 1..], c, t)
  {
    CharIndexFirst(s, c, k);
    assert c !in s[k..i] by {
      assert forall m :: 0 <= m < i - k ==> s[k..i][m] == s[k + m];
    }
    SliceAround(s, k, i);
    ReplaceCharPiece(s[k..i], c, t, s[i + 1..]);
  }

  lemma ReplaceCharPiece(p: string, c: char, t: string, rest: string)
    requires c !in p
    ensures ReplaceChar(p + [c] + rest, c, t) == p + t + ReplaceChar(rest, c, t)
  {
    assert p + [c] + rest == p + ([c] + rest);
    ReplaceCharAppend(p, [c] + rest, c, t);
    ReplaceCharWithout(p, c, t);
    assert ([c] + rest)[1..] == rest;
  }

  /** `s.replace(/c/g, t)` agrees with `s.split(c).join(t)`: every `c`
      becomes `t`, and the text between them is kept, in order. */
  lemma ReplaceCharSplit(s: string, c: char, t: string)
    ensures ReplaceChar(s, c, t) == Join(SplitOn(s, c), t)
  {
    ReplaceCharSplitFrom(s, c, t, 0);
    assert s[0..] == s;
  }

  /** `s.replace(/c/g, '')` agrees with `s.split(c).join('')`. */
  lemma {:induction false} RemoveCharSplit(s: string, c: char)
    ensures RemoveChar(s, c) == Join(SplitOn(s, c), "")
  {
    RemoveIsReplace(s, c);
    ReplaceCharSplit(s, c, "");
  }

  lemma {:induction false} RemoveIsReplace(s: string, c: char)
    ensures RemoveChar(s, c) == ReplaceChar(s, c, "")
  {
    if s != [] {
      RemoveIsReplace(s[1..], c);
    }
  }

  // ---------------------------------------------------------------------
  // Element.tagName

  /** ASCII upper case, as an HTML document reports an element's tag
      name. */
  function AsciiUpper(s: string): (r: string)
    ensures |r| == |s|
    ensures forall k :: 0 <= k < |s| ==> (r[k] == if 'a' <= s[k] <= 'z' then (s[k] as int - 32) as char else s[k])
  {
    seq(|s|, k requires 0 <= k < |s| => if 'a' <= s[k] <= 'z' then (s[k] as int - 32) as char else s[k])
  }

  /** Upper-casing twice is upper-casing once. */
  lemma AsciiUpperIdempotent(s: string)
    ensures AsciiUpper(AsciiUpper(s)) == AsciiUpper(s)
  {
  }

  // ---------------------------------------------------------------------
  // Array.prototype.splice(start, 1)

  /** The index `splice(start, 1)` removes from an array of length `len`:
      a negative start counts back from the end and is clamped at 0; a
      start past the end is clamped to `len`. */
  function SpliceStart(len: nat, start: int): (k: nat)
    ensures k <= len
    ensures 0 <= start <= len ==> k == start
    ensures start < 0 && 0 <= len + start ==> k == len + start
    ensures len + start < 0 ==> k == 0
  {
    if start < 0 then Clamp(len + start, 0, len) else Clamp(start, 0, len)
  }

  /** `s.splice(start, 1)` applied to `s`: the array left behind. */
  function SpliceOut<T>(s: seq<T>, start: int): (r: seq<T>)
  {
    var k := SpliceStart(|s|, start);
    if k < |s| then s[..k] + s[k + 1..] else s
  }

  /** Splicing out one element of a non-empty array drops exactly that
      element and keeps the others in their order. */
  lemma SpliceOutRemovesOne<T>(s: seq<T>, start: int)
    requires s != [] && start < |s|
    ensures var k := SpliceStart(|s|, start);
      && k < |s|
      && |SpliceOut(s, start)| == |s| - 1
      && (forall j :: 0 <= j < k ==> SpliceOut(s, start)[j] == s[j])
      && (forall j :: k <= j < |s| - 1 ==> SpliceOut(s, start)[j] == s[j + 1])
      && multiset(SpliceOut(s, start)) + multiset{s[k]} == multiset(s)
  {
    var k := SpliceStart(|s|, start);
    assert s == s[..k] + [s[k]] + s[k + 1..];
  }

  /** `splice(-1, 1)`, which is what removing an absent element amounts
      to, removes the last element. */
  lemma SpliceMinusOneRemovesLast<T>(s: seq<T>)
    requires s != []
    ensures SpliceStart(|s|, -1) == |s| - 1
    ensures SpliceOut(s, -1) == s[..|s| - 1]
  {
  }

  // ---------------------------------------------------------------------
  // Number to decimal string (template literal `${n}`)

  /** The decimal digit for `d`. */
  function DigitChar(d: nat): (c: char)
    requires d < 10
    ensures '0' <= c <= '9'
  {
    (48 + d) as char
  }

  /** The decimal representation `${n}` of a non-negative integer. */
  function DecimalString(n: nat): (s: string)
    ensures 1 <= |s|
    ensures (n < 10) == (|s| == 1)
    ensures forall k :: 0 <= k < |s| ==> '0' <= s[k] <= '9'
  {
    if n < 10 then [DigitChar(n)] else DecimalString(n / 10) + [DigitChar(n % 10)]
  }

  /** Different numbers have different decimal representations. */
  lemma {:induction false} DecimalStringInjective(n: nat, m: nat)
    requires DecimalString(n) == DecimalString(m)
    ensures n == m
  {
    var sn, sm := DecimalString(n), DecimalString(m);
    if n >= 10 && m >= 10 {
      assert sn[..|sn| - 1] == DecimalString(n / 10);
      assert sm[..|sm| - 1] == DecimalString(m / 10);
      assert DigitChar(n % 10) == sn[|sn| - 1] == sm[|sm| - 1] == DigitChar(m % 10);
      DecimalStringInjective(n / 10, m / 10);
    } else if n < 10 && m < 10 {
      assert DigitChar(n) == sn[0] == sm[0] == DigitChar(m);
    }
  }

  // ---------------------------------------------------------------------
  // Array.prototype.join and String.prototype.split on one character

  /** `parts.join(sep)`. */
  function Join(parts: seq<string>, sep: string): string
  {
    if |parts| == 0 then ""
    else if |parts| == 1 then parts[0]
    else parts[0] + sep + Join(parts[1..], sep)
  }

  /** The pieces of `s[k..]` between occurrences of `c`. */
  function SplitOnFrom(s: string, c: char, k: nat): (r: seq<string>)
    requires k <= |s|
    ensures |r| >= 1
    decreases |s| - k
  {
    var i := CharIndex(s, c, k);
    if i < 0 then [s[k..]] else [s[k..i]] + SplitOnFrom(s, c, i + 1)
  }

  /** `s.split(c)` for a one-character separator. */
  function SplitOn(s: string, c: char): seq<string>
  {
    SplitOnFrom(s, c, 0)
  }

  lemma {:induction false} JoinCons(p: string, ps: seq<string>, sep: string)
    requires ps != []
    ensures Join([p] + ps, sep) == p + sep + Join(ps, sep)
  {
    assert ([p] + ps)[1..] == ps;
  }

  /** Joining with `c` undoes splitting on `c`. */
  lemma {:induction false} JoinSplitOnFrom(s: string, c: char, k: nat)
    requires k <= |s|
    ensures Join(SplitOnFrom(s, c, k), [c]) == s[k..]
    decreases |s| - k
  {
    var i := CharIndex(s, c, k);
    if i >= 0 {
      JoinSplitOnFrom(s, c, i + 1);
      var rest := SplitOnFrom(s, c, i + 1);
      JoinCons(s[k..i], rest, [c]);
      SliceAround(s, k, i);
    }
  }

  lemma SliceAround(s: string, k: nat, i: nat)
    requires k <= i < |s|
    ensures s[k..] == s[k..i] + [s[i]] + s[i + 1..]
  {
    assert s[k..] == s[k..i] + s[i..];
  }

  lemma JoinSplitOn(s: string, c: char)
    ensures Join(SplitOn(s, c), [c]) == s
  {
    JoinSplitOnFrom(s, c, 0);
  }

  /** The first `c` at or after `k` ends the `c`-free text `p` found there. */
  lemma CharIndexAt(t: string, c: char, k: nat, p: string, rest: string)
    requires k <= |t| && t[k..] == p + [c] + rest && c !in p
    ensures CharIndex(t, c, k) == k + |p|
    ensures t[k..k + |p|] == p && t[k + |p| + 1..] == rest
  {
    CharIndexFirst(t, c, k);
    assert t[k + |p|] == t[k..][|p|] == c;
    assert forall m :: k <= m < k + |p| ==> t[m] == t[k..][m - k] == p[m - k];
    assert t[k..k + |p|] == t[k..][..|p|];
    assert t[k + |p| + 1..] == t[k..][|p| + 1..];
  }

  /** Text without `c` holds no `c` to find. */
  lemma CharIndexNone(t: string, c: char, k: nat)
    requires k <= |t| && c !in t[k..]
    ensures CharIndex(t, c, k) == -1
  {
    CharIndexFirst(t, c, k);
    assert forall m :: k <= m < |t| ==> t[m] == t[k..][m - k];
  }

  lemma {:induction false} SplitOnFromParts(parts: seq<string>, c: char, t: string, k: nat)
    requires |parts| >= 1
    requires forall n :: 0 <= n < |parts| ==> c !in parts[n]
    requires k <= |t| && t[k..] == Join(parts, [c])
    ensures SplitOnFrom(t, c, k) == parts
    decreases |parts|
  {
    var p := parts[0];
    if |parts| == 1 {
      CharIndexNone(t, c, k);
    } else {
      JoinCons(p, parts[1..], [c]);
      assert parts == [p] + parts[1..];
      CharIndexAt(t, c, k, p, Join(parts[1..], [c]));
      SplitOnFromParts(parts[1..], c, t, k + |p| + 1);
    }
  }

  /** Splitting on `c` undoes joining with `c`, as long as no part holds
      `c` itself. */
  lemma SplitOnJoin(parts: seq<string>, c: char)
    requires |parts| >= 1
    requires forall n :: 0 <= n < |parts| ==> c !in parts[n]
    ensures SplitOn(Join(parts, [c]), c) == parts
  {
    SplitOnFromParts(parts, c, Join(parts, [c]), 0);
  }

  // ---------------------------------------------------------------------
  // lodash uniq and Array.prototype.filter

  /** No element occurs twice. */
  predicate NoDuplicates<T(==)>(s: seq<T>)
  {
    forall i, j :: 0 <= i < j < |s| ==> s[i] != s[j]
  }

  /** The elements of `r` appear in the order of their first occurrence
      in `s`. */
  predicate InOrderOf<T(==)>(r: seq<T>, s: seq<T>)
  {
    forall i, j :: 0 <= i < j < |r| ==> IndexOf(s, r[i]) < IndexOf(s, r[j])
  }

  /** The first occurrences of the elements of `s` that are not in `seen`. */
  function FirstOccurrences<T(==,!new)>(s: seq<T>, seen: set<T>): (r: seq<T>)
    ensures NoDuplicates(r)
    ensures forall x :: x in r <==> x in s && x !in seen
    decreases |s|
  {
    if s == [] then []
    else if s[0] in seen then FirstOccurrences(s[1..], seen)
    else [s[0]] + FirstOccurrences(s[1..], seen + {s[0]})
  }

  /** lodash `uniq(s)`: the first occurrence of each element, in order. */
  function Uniq<T(==,!new)>(s: seq<T>): (r: seq<T>)
    ensures NoDuplicates(r)
    ensures forall x :: x in r <==> x in s
  {
    FirstOccurrences(s, {})
  }

  lemma {:induction false} FirstOccurrencesInOrder<T(!new)>(s: seq<T>, seen: set<T>)
    ensures InOrderOf(FirstOccurrences(s, seen), s)
    decreases |s|
  {
    if s != [] {
      var r := FirstOccurrences(s, seen);
      if s[0] in seen {
        FirstOccurrencesInOrder(s[1..], seen);
        forall x | x in r ensures IndexOf(s, x) == IndexOf(s[1..], x) + 1 {
          IndexOfTail(s, x);
        }
      } else {
        var t := FirstOccurrences(s[1..], seen + {s[0]});
        FirstOccurrencesInOrder(s[1..], seen + {s[0]});
        forall x | x in t ensures IndexOf(s, x) == IndexOf(s[1..], x) + 1 {
          IndexOfTail(s, x);
        }
        forall j | 0 <= j < |t| ensures IndexOf(s, s[0]) < IndexOf(s, t[j]) {
          assert t[j] in t;
        }
        InOrderCons(s[0], t, s);
      }
    }
  }

  /** `uniq` keeps each element's first occurrence, in the input's order. */
  lemma UniqInOrder<T(!new)>(s: seq<T>)
    ensures InOrderOf(Uniq(s), s)
  {
    FirstOccurrencesInOrder(s, {});
  }

  /** `s.filter(p)`. */
  function Filter<T(!new)>(s: seq<T>, p: T -> bool): (r: seq<T>)
    ensures |r| <= |s|
    ensures forall x :: x in r <==> x in s && p(x)
  {
    if s == [] then []
    else if p(s[0]) then [s[0]] + Filter(s[1..], p)
    else Filter(s[1..], p)
  }

  /** Filtering by a predicate and by its negation splits `s` in two: every
      element lands in exactly one of the two results. */
  lemma {:induction false} FilterSplits<T(!new)>(s: seq<T>, p: T -> bool, q: T -> bool)
    requires forall x :: q(x) == !p(x)
    ensures multiset(Filter(s, p)) + multiset(Filter(s, q)) == multiset(s)
  {
    if s != [] {
      var t := s[1..];
      FilterSplits(t, p, q);
      FilterHead(s, p);
      FilterHead(s, q);
      HeadSplit(s, p(s[0]), q(s[0]));
    }
  }

  /** The head of `s` goes to exactly one side. */
  lemma HeadSplit<T>(s: seq<T>, inP: bool, inQ: bool)
    requires s != [] && inQ == !inP
    ensures multiset(s) ==
      (if inP then multiset{s[0]} else multiset{}) + (if inQ then multiset{s[0]} else multiset{}) + multiset(s[1..])
  {
    assert s == [s[0]] + s[1..];
  }

  /** One step of the filter, as a multiset: the head is kept or dropped. */
  lemma FilterHead<T(!new)>(s: seq<T>, p: T -> bool)
    requires s != []
    ensures multiset(Filter(s, p)) == (if p(s[0]) then multiset{s[0]} else multiset{}) + multiset(Filter(s[1..], p))
  {
  }

  lemma InOrderTail<T>(u: seq<T>, s: seq<T>)
    requires u != [] && InOrderOf(u, s)
    ensures InOrderOf(u[1..], s)
  {
    forall i, j | 0 <= i < j < |u| - 1 ensures IndexOf(s, u[1..][i]) < IndexOf(s, u[1..][j]) {
      assert u[1..][i] == u[i + 1] && u[1..][j] == u[j + 1];
    }
  }

  lemma InOrderHead<T>(u: seq<T>, s: seq<T>, t: seq<T>)
    requires u != [] && InOrderOf(u, s)
    requires forall y :: y in t ==> y in u[1..]
    ensures forall j :: 0 <= j < |t| ==> IndexOf(s, u[0]) < IndexOf(s, t[j])
  {
    forall j | 0 <= j < |t| ensures IndexOf(s, u[0]) < IndexOf(s, t[j]) {
      assert t[j] in u[1..];
      var m :| 0 <= m < |u| - 1 && u[1..][m] == t[j];
      assert u[m + 1] == t[j];
    }
  }

  lemma InOrderCons<T>(x: T, t: seq<T>, s: seq<T>)
    requires InOrderOf(t, s)
    requires forall j :: 0 <= j < |t| ==> IndexOf(s, x) < IndexOf(s, t[j])
    ensures InOrderOf([x] + t, s)
  {
    var r := [x] + t;
    forall i, j | 0 <= i < j < |r| ensures IndexOf(s, r[i]) < IndexOf(s, r[j]) {
      assert r[j] == t[j - 1];
      if i > 0 { assert r[i] == t[i - 1]; }
    }
  }

  /** Filtering keeps the relative order: if the elements of `u` appear in
      the order of their first occurrences in `s`, so do those that pass. */
  lemma {:induction false} FilterInOrder<T(!new)>(u: seq<T>, s: seq<T>, p: T -> bool)
    requires InOrderOf(u, s)
    ensures InOrderOf(Filter(u, p), s)
  {
    if u != [] {
      InOrderTail(u, s);
      FilterInOrder(u[1..], s, p);
      var t := Filter(u[1..], p);
      if p(u[0]) {
        assert Filter(u, p) == [u[0]] + t;
        InOrderHead(u, s, t);
        InOrderCons(u[0], t, s);
      } else {
        assert Filter(u, p) == t;
      }
    }
  }

  /** A list in the order of first occurrences has no repeats. */
  lemma InOrderNoDuplicates<T>(r: seq<T>, s: seq<T>)
    requires InOrderOf(r, s)
    ensures NoDuplicates(r)
  {
    forall i, j | 0 <= i < j < |r| ensures r[i] != r[j] {
      assert IndexOf(s, r[i]) < IndexOf(s, r[j]);
    }
  }

  // ---------------------------------------------------------------------
  // assigning an object's entries one by one (reduce / forEach)

  /** No key occurs twice, as in any JavaScript object. */
  predicate UniqueKeys<V>(entries: seq<(string, V)>)
  {
    forall i, j :: 0 <= i < j < |entries| ==> entries[i].0 != entries[j].0
  }

  /** Each entry in turn stored into `acc`, a later entry overwriting an
      earlier one with the same key. */
  function Assign<V>(entries: seq<(string, V)>, acc: map<string, V>): map<string, V>
  {
    if entries == [] then acc else Assign(entries[1..], acc[entries[0].0 := entries[0].1])
  }

  /** Storing one more entry after the others. */
  lemma {:induction false} AssignSnoc<V>(entries: seq<(string, V)>, e: (string, V), acc: map<string, V>)
    ensures Assign(entries + [e], acc) == Assign(entries, acc)[e.0 := e.1]
  {
    if entries == [] {
      assert entries + [e] == [e];
      assert [e][1..] == [];
    } else {
      assert (entries + [e])[1..] == entries[1..] + [e];
      AssignSnoc(entries[1..], e, acc[entries[0].0 := entries[0].1]);
    }
  }

  /** The accumulated map holds the accumulator's keys and the entries'
      keys; an entry whose key does not come again later keeps its value. */
  lemma {:induction false} AssignKeys<V>(entries: seq<(string, V)>, acc: map<string, V>, k: string)
    ensures k in Assign(entries, acc) <==> k in acc || exists e :: e in entries && e.0 == k
  {
    if entries != [] {
      AssignKeys(entries[1..], acc[entries[0].0 := entries[0].1], k);
      assert entries == [entries[0]] + entries[1..];
    }
  }

  lemma {:induction false} AssignValue<V>(entries: seq<(string, V)>, acc: map<string, V>, e: (string, V))
    requires e in entries
    requires forall f :: f in entries && f.0 == e.0 ==> f == e
    ensures e.0 in Assign(entries, acc) && Assign(entries, acc)[e.0] == e.1
  {
    assert entries == [entries[0]] + entries[1..];
    var acc' := acc[entries[0].0 := entries[0].1];
    if e in entries[1..] {
      AssignValue(entries[1..], acc', e);
    } else {
      assert entries[0] == e;
      AssignKept(entries[1..], acc', e.0);
    }
  }

  /** A key that no entry writes keeps the accumulator's value. */
  lemma {:induction false} AssignKept<V>(entries: seq<(string, V)>, acc: map<string, V>, k: string)
    requires k in acc
    requires forall f :: f in entries ==> f.0 != k
    ensures k in Assign(entries, acc) && Assign(entries, acc)[k] == acc[k]
  {
    if entries != [] {
      assert entries[0] in entries;
      AssignKept(entries[1..], acc[entries[0].0 := entries[0].1], k);
    }
  }

  // ---------------------------------------------------------------------
  // String(undefined) and Node's path.basename

  /** `String(undefined)`. */
  const Undefined: string := "undefined"

  /** `basename(path, '.ux')` for the file paths the compiler is given: the
      text after the last `/`, without a final `.ux` unless that is all
      there is. */
  function Basename(path: string): string
  {
    var i := LastSlash(path, |path|);
    var base := path[i + 1..];
    if |base| > 3 && base[|base| - 3..] == ".ux" then base[..|base| - 3] else base
  }

  /** The index of the last `/` before position `k`, or -1. */
  function LastSlash(path: string, k: nat): (i: int)
    requires k <= |path|
    ensures -1 <= i < k
    ensures 0 <= i ==> path[i] == '/'
    ensures forall m :: i < m < k ==> path[m] != '/'
  {
    if k == 0 then -1 else if path[k - 1] == '/' then k - 1 else LastSlash(path, k - 1)
  }

  /** The name of `dir/n.ux` is `n`. */
  lemma BasenameOfFile(dir: string, n: string)
    requires n != "" && '/' !in n
    ensures Basename(dir + "/" + n + ".ux") == n
  {
    var path := dir + "/" + n + ".ux";
    var i := LastSlash(path, |path|);
    assert path[|dir|] == '/';
    assert forall m :: |dir| < m < |path| ==> path[m] != '/' by {
      forall m | |dir| < m < |path| ensures path[m] != '/' {
        if m <= |dir| + |n| { assert path[m] == n[m - |dir| - 1]; }
      }
    }
    assert i == |dir|;
    assert path[i + 1..] == n + ".ux";
  }
}
