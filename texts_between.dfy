/** The placeholder scanner both compilers construct as
    `new TextsBetween('[', ']')`. Its library is not part of this model; this
    module gives it the simple reading its callers rely on: a text is a run of
    literal parts and `[name]` placeholders, where a placeholder opens at the
    first `[` and closes at the first `]` after it, and an unclosed `[` is
    literal text. */
module TextsBetween {
  import opened Js

  /** One piece of a scanned text: literal text, or the name written
      between `[` and `]`. */
  datatype Part = Literal(text: string) | Variable(name: string)

  /** The parts of `s[k..]` in order: literal text up to the next `[`, then
      the name up to the first `]` after it, then the rest. */
  function SplitFrom(s: string, k: nat): (parts: seq<Part>)
    requires k <= |s|
    decreases |s| - k
  {
    var i := CharIndex(s, '[', k);
    if i < 0 then (if k == |s| then [] else [Literal(s[k..])])
    else
      var j := CharIndex(s, ']', i + 1);
      if j < 0 then [Literal(s[k..])]
      else (if i == k then [] else [Literal(s[k..i])]) + [Variable(s[i + 1..j])] + SplitFrom(s, j + 1)
  }

  /** One step of the scan, when a closed placeholder follows `k`. */
  lemma SplitFromStep(s: string, k: nat, i: int, j: int)
    requires k <= |s|
    requires i == CharIndex(s, '[', k) && 0 <= i
    requires j == CharIndex(s, ']', i + 1) && 0 <= j
    ensures SplitFrom(s, k) ==
      (if i == k then [] else [Literal(s[k..i])]) + [Variable(s[i + 1..j])] + SplitFrom(s, j + 1)
  {
  }

  /** The last scan step, when no closed placeholder follows `k`: the rest
      is literal text. */
  lemma SplitFromEnd(s: string, k: nat)
    requires k <= |s|
    requires CharIndex(s, '[', k) < 0 || CharIndex(s, ']', CharIndex(s, '[', k) + 1) < 0
    ensures SplitFrom(s, k) == if k == |s| then [] else [Literal(s[k..])]
  {
  }

  /** `split(s)`: the parts of `s` in order. */
  function Split(s: string): seq<Part>
  {
    SplitFrom(s, 0)
  }

  /** A part is well formed when it is non-empty literal text, or a name
      that holds no `]`. */
  predicate WellFormed(p: Part)
  {
    match p
    case Literal(t) => t != ""
    case Variable(v) => ']' !in v
  }

  /** Every part of a run is well formed. */
  predicate AllWellFormed(parts: seq<Part>)
  {
    forall n :: 0 <= n < |parts| ==> WellFormed(parts[n])
  }

  lemma AllWellFormedConcat(a: seq<Part>, b: seq<Part>)
    requires AllWellFormed(a) && AllWellFormed(b)
    ensures AllWellFormed(a + b)
  {
    forall n | 0 <= n < |a + b| ensures WellFormed((a + b)[n]) {
      if n >= |a| {
        assert (a + b)[n] == b[n - |a|];
      }
    }
  }

  /** The name the scan cuts out stops at the first `]`. */
  lemma NameHasNoClose(s: string, i: nat, j: int)
    requires i < |s| && j == CharIndex(s, ']', i + 1) && 0 <= j
    ensures ']' !in s[i + 1..j]
  {
    CharIndexFirst(s, ']', i + 1);
  }

  /** One scan step adds well-formed parts in front of the rest. */
  lemma StepWellFormed(s: string, k: nat, i: int, j: int)
    requires k <= |s|
    requires i == CharIndex(s, '[', k) && 0 <= i
    requires j == CharIndex(s, ']', i + 1) && 0 <= j
    requires AllWellFormed(SplitFrom(s, j + 1))
    ensures AllWellFormed(SplitFrom(s, k))
  {
    var head := (if i == k then [] else [Literal(s[k..i])]) + [Variable(s[i + 1..j])];
    SplitFromStep(s, k, i, j);
    NameHasNoClose(s, i, j);
    AllWellFormedConcat(head, SplitFrom(s, j + 1));
  }

  lemma {:induction false} SplitFromWellFormed(s: string, k: nat)
    requires k <= |s|
    ensures AllWellFormed(SplitFrom(s, k))
    decreases |s| - k
  {
    var i := CharIndex(s, '[', k);
    if i >= 0 {
      var j := CharIndex(s, ']', i + 1);
      if j >= 0 {
        SplitFromWellFormed(s, j + 1);
        StepWellFormed(s, k, i, j);
        return;
      }
    }
    SplitFromEnd(s, k);
  }

  /** Split never yields an empty literal, and a placeholder's name never
      holds `]`. */
  lemma SplitWellFormed(s: string)
    ensures AllWellFormed(Split(s))
  {
    SplitFromWellFormed(s, 0);
  }

  /** The source text of one part. */
  function PartSource(p: Part): string
  {
    match p
    case Literal(t) => t
    case Variable(v) => "[" + v + "]"
  }

  /** The source text of a run of parts. */
  function Render(parts: seq<Part>): string
  {
    if parts == [] then "" else PartSource(parts[0]) + Render(parts[1..])
  }

  lemma {:induction false} RenderAppend(a: seq<Part>, b: seq<Part>)
    ensures Render(a + b) == Render(a) + Render(b)
  {
    if a == [] {
      assert a + b == b;
    } else {
      assert (a + b)[0] == a[0];
      assert (a + b)[1..] == a[1..] + b;
      RenderAppend(a[1..], b);
      calc {
        Render(a + b);
        PartSource(a[0]) + Render(a[1..] + b);
        PartSource(a[0]) + (Render(a[1..]) + Render(b));
        Render(a) + Render(b);
      }
    }
  }

  /** A closed placeholder and the text before it, cut out of `s`. */
  lemma SliceAroundPlaceholder(s: string, k: nat, i: nat, j: nat)
    requires k <= i < j < |s| && s[i] == '[' && s[j] == ']'
    ensures s[k..j + 1] == s[k..i] + ("[" + s[i + 1..j] + "]")
  {
    assert s[i + 1..j + 1] == s[i + 1..j] + [s[j]];
    assert s[i..j + 1] == [s[i]] + s[i + 1..j + 1];
    assert s[k..j + 1] == s[k..i] + s[i..j + 1];
  }

  lemma SliceAt(s: string, k: nat, m: nat)
    requires k <= m <= |s|
    ensures s[k..] == s[k..m] + s[m..]
  {
  }

  /** The parts of one scan step render back to the text they came from. */
  lemma RenderStep(s: string, k: nat, i: nat, j: nat)
    requires k <= i < j < |s| && s[i] == '[' && s[j] == ']'
    ensures Render((if i == k then [] else [Literal(s[k..i])]) + [Variable(s[i + 1..j])]) == s[k..j + 1]
  {
    var head := if i == k then [] else [Literal(s[k..i])];
    var v := Variable(s[i + 1..j]);
    RenderAppend(head, [v]);
    assert Render(head) == s[k..i];
    assert Render([v]) == "[" + s[i + 1..j] + "]" by {
      assert [v][1..] == [];
    }
    SliceAroundPlaceholder(s, k, i, j);
  }

  lemma {:induction false} SplitFromRender(s: string, k: nat)
    requires k <= |s|
    ensures Render(SplitFrom(s, k)) == s[k..]
    decreases |s| - k
  {
    var i := CharIndex(s, '[', k);
    var j := if i < 0 then -1 else CharIndex(s, ']', i + 1);
    if j < 0 {
      SplitFromTail(s, k);
    } else {
      SplitFromRender(s, j + 1);
      SplitFromRenderStep(s, k, i, j);
    }
  }

  /** Without a complete placeholder ahead, the rest of the text is one
      literal part (none at the very end). */
  lemma SplitFromTail(s: string, k: nat)
    requires k <= |s|
    requires var i := CharIndex(s, '[', k); i < 0 || CharIndex(s, ']', i + 1) < 0
    ensures Render(SplitFrom(s, k)) == s[k..]
  {
    if k < |s| {
      assert SplitFrom(s, k) == [Literal(s[k..])];
      assert Render([Literal(s[k..])]) == s[k..];
    }
  }

  /** One placeholder of the scan: the text up to and including it, then
      the rest. */
  lemma SplitFromRenderStep(s: string, k: nat, i: int, j: int)
    requires k <= |s|
    requires i == CharIndex(s, '[', k) && 0 <= i
    requires j == CharIndex(s, ']', i + 1) && 0 <= j
    requires Render(SplitFrom(s, j + 1)) == s[j + 1..]
    ensures Render(SplitFrom(s, k)) == s[k..]
  {
    var head := (if i == k then [] else [Literal(s[k..i])]) + [Variable(s[i + 1..j])];
    var rest := SplitFrom(s, j + 1);
    assert SplitFrom(s, k) == head + rest by { SplitFromStep(s, k, i, j); }
    assert Render(head) == s[k..j + 1] by { RenderStep(s, k, i, j); }
    assert Render(head + rest) == Render(head) + Render(rest) by { RenderAppend(head, rest); }
    assert s[k..] == s[k..j + 1] + s[j + 1..] by { SliceAt(s, k, j + 1); }
  }

  /** Scanning loses nothing: the parts put back together give the text. */
  lemma SplitRender(s: string)
    ensures Render(Split(s)) == s
  {
    SplitFromRender(s, 0);
  }

  /** The placeholder names of a run of parts, in order. */
  function Names(parts: seq<Part>): seq<string>
  {
    if parts == [] then []
    else (if parts[0].Variable? then [parts[0].name] else []) + Names(parts[1..])
  }

  /** `get(s)`: the placeholder names in `s`, in order of appearance. */
  function Get(s: string): seq<string>
  {
    Names(Split(s))
  }

  /** Each part with its placeholders replaced through `f`. */
  function Substitute(parts: seq<Part>, f: string -> string): string
  {
    if parts == [] then ""
    else
      (match parts[0] case Literal(t) => t case Variable(v) => f(v)) + Substitute(parts[1..], f)
  }

  /** `replace(s, f)`: `s` with every placeholder `[k]` replaced by `f(k)`. */
  function Replace(s: string, f: string -> string): string
  {
    Substitute(Split(s), f)
  }

  /** The placeholder's own source text. */
  function Placeholder(k: string): string
  {
    "[" + k + "]"
  }

  lemma {:induction false} SubstitutePlaceholders(parts: seq<Part>)
    ensures Substitute(parts, Placeholder) == Render(parts)
  {
    if parts != [] {
      SubstitutePlaceholders(parts[1..]);
    }
  }

  /** Replacing every placeholder by itself leaves the text unchanged. */
  lemma ReplaceIdentity(s: string)
    ensures Replace(s, Placeholder) == s
  {
    SubstitutePlaceholders(Split(s));
    SplitRender(s);
  }

  lemma {:induction false} SubstituteAppend(a: seq<Part>, b: seq<Part>, f: string -> string)
    ensures Substitute(a + b, f) == Substitute(a, f) + Substitute(b, f)
  {
    if a == [] {
      assert a + b == b;
    } else {
      assert (a + b)[1..] == a[1..] + b;
      SubstituteAppend(a[1..], b, f);
    }
  }

  /** Substituting into parts that are all literal gives back their source. */
  lemma {:induction false} SubstituteLiterals(parts: seq<Part>, f: string -> string)
    requires forall n :: 0 <= n < |parts| ==> parts[n].Literal?
    ensures Substitute(parts, f) == Render(parts)
  {
    if parts != [] {
      SubstituteLiterals(parts[1..], f);
    }
  }

  /** A text without placeholders is left unchanged by `replace`. */
  lemma ReplaceLiteralOnly(s: string, f: string -> string)
    requires forall n :: 0 <= n < |Split(s)| ==> Split(s)[n].Literal?
    ensures Replace(s, f) == s
  {
    SubstituteLiterals(Split(s), f);
    SplitRender(s);
  }

  lemma OpenBracket(s: string, a: string, t: string)
    requires s == a + "[" + t && '[' !in a
    ensures CharIndex(s, '[', 0) == |a| && s[..|a|] == a && s[|a| + 1..] == t
  {
    assert s[0..] == a + ['['] + t;
    CharIndexAt(s, '[', 0, a, t);
  }

  lemma CloseBracket(s: string, m: nat, k: string, b: string)
    requires m <= |s| && s[m..] == k + "]" + b && ']' !in k
    ensures CharIndex(s, ']', m) == m + |k| && s[m..m + |k|] == k && s[m + |k| + 1..] == b
  {
    assert s[m..] == k + [']'] + b;
    CharIndexAt(s, ']', m, k, b);
  }

  /** The parts of a text with one placeholder holding `k`, with `a`
      before it and `b` after it: empty texts make no literal part. */
  function Around(a: string, k: string, b: string): seq<Part>
  {
    (if a == "" then [] else [Literal(a)]) + [Variable(k)] + (if b == "" then [] else [Literal(b)])
  }

  /** A text with exactly one closed placeholder: the text before it, the
      placeholder, the text after it. */
  lemma SplitAround(s: string, i: nat, j: nat)
    requires i < j < |s|
    requires CharIndex(s, '[', 0) == i && CharIndex(s, ']', i + 1) == j && CharIndex(s, '[', j + 1) == -1
    ensures Split(s) == Around(s[0..i], s[i + 1..j], s[j + 1..])
  {
    SplitFromEnd(s, j + 1);
    SplitFromStep(s, 0, i, j);
  }

  /** What lies around the brackets of one placeholder between texts
      without brackets. */
  lemma OneBracketSlices(s: string, a: string, k: string, b: string)
    requires s == a + "[" + k + "]" + b
    ensures |a| + 1 + |k| < |s|
    ensures s[0..|a|] == a && s[|a| + 1..|a| + 1 + |k|] == k && s[|a| + 1 + |k| + 1..] == b
  {
    assert s == a + "[" + (k + "]" + b);
  }

  /** The placeholder opens right after `a`. */
  lemma OpensAfter(s: string, a: string, k: string, b: string)
    requires s == a + "[" + k + "]" + b && '[' !in a
    ensures CharIndex(s, '[', 0) == |a|
  {
    assert s == a + "[" + (k + "]" + b);
    OpenBracket(s, a, k + "]" + b);
  }

  /** The placeholder closes right after `k`. */
  lemma ClosesAfter(s: string, a: string, k: string, b: string)
    requires s == a + "[" + k + "]" + b && '[' !in a && ']' !in k
    ensures CharIndex(s, ']', |a| + 1) == |a| + 1 + |k|
  {
    assert s == a + "[" + (k + "]" + b);
    OpenBracket(s, a, k + "]" + b);
    CloseBracket(s, |a| + 1, k, b);
  }

  /** No placeholder opens in `b`. */
  lemma NoneOpensAfter(s: string, a: string, k: string, b: string)
    requires s == a + "[" + k + "]" + b && '[' !in b
    ensures |a| + 1 + |k| < |s|
    ensures CharIndex(s, '[', |a| + 1 + |k| + 1) == -1
  {
    OneBracketSlices(s, a, k, b);
    CharIndexNone(s, '[', |a| + 1 + |k| + 1);
  }

  /** The scan of one placeholder between texts without brackets. */
  lemma SplitOne(a: string, k: string, b: string)
    requires '[' !in a && ']' !in k && '[' !in b
    ensures Split(a + "[" + k + "]" + b) ==
      (if a == "" then [] else [Literal(a)]) + [Variable(k)] + (if b == "" then [] else [Literal(b)])
  {
    var s := a + "[" + k + "]" + b;
    OpensAfter(s, a, k, b);
    ClosesAfter(s, a, k, b);
    NoneOpensAfter(s, a, k, b);
    SplitAround(s, |a|, |a| + 1 + |k|);
    OneBracketSlices(s, a, k, b);
  }

  /** One placeholder between texts without brackets is replaced by the
      callback's value for its name, and the texts around it are kept. */
  lemma ReplaceOne(a: string, k: string, b: string, f: string -> string)
    requires '[' !in a && ']' !in k && '[' !in b
    ensures Replace(a + "[" + k + "]" + b, f) == a + f(k) + b
  {
    SplitOne(a, k, b);
    var head: seq<Part> := if a == "" then [] else [Literal(a)];
    var tail: seq<Part> := if b == "" then [] else [Literal(b)];
    SubstituteAppend(head + [Variable(k)], tail, f);
    SubstituteAppend(head, [Variable(k)], f);
    assert Substitute([Variable(k)], f) == f(k);
    assert Substitute(head, f) == a;
    assert Substitute(tail, f) == b;
  }
}
