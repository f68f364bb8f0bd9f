/** The `namespace: <name>;` header both `.ux` compilers read before handing
    the rest of the file to the HTML parser, and the errors they report. */
module UxHeader {
  import opened Wrappers
  import opened Js

  /** The validation errors of `src/services/errors.ts`, each carrying the
      path of the offending file. */
  datatype CompileError =
    | NamespaceMissing(path: string)
    | MultipleStyles(path: string)
    | MultipleHtmlBody(path: string)
    | HtmlBodyMissing(path: string)
    | MultipleScript(path: string)
    | MultipleTemplate(path: string)
    | TemplateMissing(path: string)

  const Prefix: string := "namespace: "

  /** `h.match(/^namespace: [^<]+$/g)` succeeds: the prefix, then at least
      one character, none of them `<` (the class also matches line breaks,
      and without the `m` flag `^` and `$` anchor to the whole text). */
  predicate HeaderMatches(h: string)
  {
    |h| > |Prefix| && h[..|Prefix|] == Prefix && '<' !in h[|Prefix|..]
  }

  /** The index of the `;` that closes a well-formed header, or -1 when the
      text before the first `;` is not a header (or there is no `;`). */
  function HeaderEnd(code: string): (e: int)
    ensures e == -1 || |Prefix| < e < |code|
    ensures 0 <= e ==> code[e] == ';' && HeaderMatches(code[..e])
    ensures 0 <= e ==> forall m :: 0 <= m < e ==> code[m] != ';'
  {
    CharIndexFirst(code, ';', 0);
    var i := CharIndex(code, ';', 0);
    if HeaderMatches(Substring(code, 0, i)) then i else -1
  }

  /** `/` and `\`, the separators a namespace may be written with. */
  predicate IsSeparator(c: char)
  {
    c == '/' || c == '\\'
  }

  /** `s` without its leading run of separators. */
  function SkipSeparators(s: string): (r: string)
    ensures |r| <= |s| && r == s[|s| - |r|..]
    ensures r == [] || !IsSeparator(r[0])
  {
    if s != [] && IsSeparator(s[0]) then SkipSeparators(s[1..]) else s
  }

  /** `s.replace(/(\/|\\)+/g, '.')`: every run of separators becomes a
      single `.`. */
  function CollapseSeparators(s: string): (r: string)
    ensures |r| <= |s| && (s != [] ==> r != [])
    ensures forall k :: 0 <= k < |r| ==> !IsSeparator(r[k])
    decreases |s|
  {
    if s == [] then ""
    else if IsSeparator(s[0]) then "." + CollapseSeparators(SkipSeparators(s[1..]))
    else [s[0]] + CollapseSeparators(s[1..])
  }

  /** A namespace without separators is left as it is. */
  lemma {:induction false} CollapseIdentity(s: string)
    requires forall k :: 0 <= k < |s| ==> !IsSeparator(s[k])
    ensures CollapseSeparators(s) == s
    decreases |s|
  {
    if s != [] {
      assert forall k :: 0 <= k < |s| - 1 ==> s[1..][k] == s[k + 1];
      CollapseIdentity(s[1..]);
    }
  }

  /** Normalising twice is normalising once. */
  lemma CollapseIdempotent(s: string)
    ensures CollapseSeparators(CollapseSeparators(s)) == CollapseSeparators(s)
  {
    CollapseIdentity(CollapseSeparators(s));
  }

  /** The namespace the header declares: the text after the prefix up to the
      header's end, trimmed and with separators normalised. When there is
      no header the end index is -1, and `substring(11, -1)` is the text
      before index 11. */
  function Namespace(code: string): string
  {
    CollapseSeparators(Trim(Substring(code, |Prefix|, HeaderEnd(code))))
  }

  /** The errors the header produces, in the order they are recorded. */
  function HeaderErrors(code: string, path: string): (errs: seq<CompileError>)
    ensures |errs| <= 2
    ensures forall k :: 0 <= k < |errs| ==> errs[k] == NamespaceMissing(path)
  {
    (if HeaderEnd(code) < 0 then [NamespaceMissing(path)] else [])
    + (if Namespace(code) == "" then [NamespaceMissing(path)] else [])
  }

  /** The text handed to the HTML parser: `code.substr(endIdx + 1)`, all of
      `code` when there is no header. */
  function Body(code: string): (b: string)
    ensures HeaderEnd(code) < 0 ==> b == code
    ensures 0 <= HeaderEnd(code) ==> code == code[..HeaderEnd(code)] + ";" + b
  {
    var e := HeaderEnd(code);
    if 0 <= e then assert code == code[..e] + ";" + code[e + 1..]; code[e + 1..] else code
  }

  /** Lines 76-87 of both parsers: read the header, record a
      `NamespaceMissing` for a malformed header and another for an empty
      namespace, and return the namespace and the rest of the file. */
  method ParseHeader(code: string, path: string) returns (namespace: string, body: string, errors: seq<CompileError>)
    ensures namespace == Namespace(code)
    ensures body == Body(code)
    ensures errors == HeaderErrors(code, path)
  {
    errors := [];
    var endIdx := CharIndex(code, ';', 0);
    if !HeaderMatches(Substring(code, 0, endIdx)) {
      errors := errors + [NamespaceMissing(path)];
      endIdx := -1;
    }
    namespace := CollapseSeparators(Trim(Substring(code, |Prefix|, endIdx)));
    if |namespace| == 0 {
      errors := errors + [NamespaceMissing(path)];
    }
    body := SubstrFrom(code, endIdx + 1);
  }

  /** A well-formed header `namespace: n;` is accepted: its end is the `;`,
      the namespace is `n` trimmed and normalised, and the parser gets the
      text after the `;`. */
  lemma WellFormedHeader(n: string, rest: string)
    requires n != "" && ';' !in n && '<' !in n
    ensures var code := Prefix + n + ";" + rest;
      && HeaderEnd(code) == |Prefix| + |n|
      && Namespace(code) == CollapseSeparators(Trim(n))
      && Body(code) == rest
  {
    var code := Prefix + n + ";" + rest;
    var e := |Prefix| + |n|;
    assert ';' !in Prefix + n by { PrefixPlain(n); }
    assert code[0..] == (Prefix + n) + [';'] + rest;
    CharIndexAt(code, ';', 0, Prefix + n, rest);
    assert code[..e] == Prefix + n;
    assert HeaderMatches(Prefix + n) by { PrefixPlain(n); }
    assert HeaderEnd(code) == e;
    assert code[|Prefix|..e] == n by { assert code[|Prefix|..e] == (Prefix + n)[|Prefix|..]; PrefixPlain(n); }
    assert Substring(code, |Prefix|, e) == n;
  }

  /** The header text `namespace: n` splits back into the prefix and `n`. */
  lemma PrefixPlain(n: string)
    ensures (Prefix + n)[..|Prefix|] == Prefix && (Prefix + n)[|Prefix|..] == n
    ensures ';' !in n ==> ';' !in Prefix + n
    ensures n != "" && '<' !in n ==> HeaderMatches(Prefix + n)
  {
    assert ';' !in Prefix;
    assert (Prefix + n)[..|Prefix|] == Prefix;
    assert (Prefix + n)[|Prefix|..] == n;
  }

  /** Without any `;` the header is rejected, the whole file goes to the
      parser, and the namespace is computed from the first 11 characters. */
  lemma NoSemicolon(code: string)
    requires ';' !in code
    ensures HeaderEnd(code) == -1
    ensures Namespace(code) == CollapseSeparators(Trim(code[..Clamp(|Prefix|, 0, |code|)]))
    ensures Body(code) == code
  {
  }

  lemma {:induction false} SkipRun(r: string, b: string)
    requires forall k :: 0 <= k < |r| ==> IsSeparator(r[k])
    requires b == [] || !IsSeparator(b[0])
    ensures SkipSeparators(r + b) == b
    decreases |r|
  {
    if r != [] {
      assert (r + b)[1..] == r[1..] + b;
      SkipRun(r[1..], b);
    } else {
      assert r + b == b;
    }
  }

  /** A run of separators between two separator-free texts becomes one
      `.`: `form//field` is normalised to `form.field`. */
  lemma {:induction false} CollapseRun(a: string, r: string, b: string)
    requires forall k :: 0 <= k < |a| ==> !IsSeparator(a[k])
    requires r != [] && forall k :: 0 <= k < |r| ==> IsSeparator(r[k])
    requires forall k :: 0 <= k < |b| ==> !IsSeparator(b[k])
    ensures CollapseSeparators(a + r + b) == a + "." + b
    decreases |a|
  {
    if a == [] {
      assert a + r + b == r + b;
      CollapseRunStart(r, b);
    } else {
      var s := a + r + b;
      var t := a[1..];
      assert s[0] == a[0] && s[1..] == t + r + b;
      assert forall k :: 0 <= k < |t| ==> !IsSeparator(t[k]) by {
        forall k | 0 <= k < |t| ensures !IsSeparator(t[k]) {
          assert t[k] == a[k + 1];
        }
      }
      CollapseRun(t, r, b);
      CollapseCons(s);
      assert a + "." + b == [a[0]] + (t + "." + b);
    }
  }

  /** A non-separator is kept. */
  lemma CollapseCons(s: string)
    requires s != [] && !IsSeparator(s[0])
    ensures CollapseSeparators(s) == [s[0]] + CollapseSeparators(s[1..])
  {
  }

  /** A leading run of separators becomes one `.`. */
  lemma CollapseRunStart(r: string, b: string)
    requires r != [] && forall k :: 0 <= k < |r| ==> IsSeparator(r[k])
    requires forall k :: 0 <= k < |b| ==> !IsSeparator(b[k])
    ensures CollapseSeparators(r + b) == "." + b
  {
    var s := r + b;
    assert s[0] == r[0];
    assert b == [] || !IsSeparator(b[0]);
    SkipRun(r, b);
    assert SkipSeparators(s[1..]) == b;
    CollapseIdentity(b);
  }

  /** The name `a/b`, for two plain names `a` and `b`. */
  lemma PlainPair(a: string, b: string)
    requires a != "" && b != ""
    requires forall k :: 0 <= k < |a| ==> !IsSeparator(a[k]) && a[k] != ';' && a[k] != '<'
    requires forall k :: 0 <= k < |b| ==> !IsSeparator(b[k]) && b[k] != ';' && b[k] != '<'
    requires !IsWhiteSpace(a[0]) && !IsWhiteSpace(b[|b| - 1])
    ensures var n := a + "/" + b;
      ';' !in n && '<' !in n && CollapseSeparators(Trim(n)) == a + "." + b
  {
    var n := a + "/" + b;
    assert forall k :: 0 <= k < |n| ==> n[k] != ';' && n[k] != '<' by {
      forall k | 0 <= k < |n| ensures n[k] != ';' && n[k] != '<' {
        if k > |a| { assert n[k] == b[k - |a| - 1]; }
      }
    }
    assert n[0] == a[0] && n[|n| - 1] == b[|b| - 1];
    TrimUnpadded(n);
    CollapseRun(a, "/", b);
  }

  /** A header naming `a/b` declares `a.b`, as `namespace: form/field;`
      declares `form.field`. */
  lemma NamespaceExample(a: string, b: string, rest: string)
    requires a != "" && b != ""
    requires forall k :: 0 <= k < |a| ==> !IsSeparator(a[k]) && a[k] != ';' && a[k] != '<'
    requires forall k :: 0 <= k < |b| ==> !IsSeparator(b[k]) && b[k] != ';' && b[k] != '<'
    requires !IsWhiteSpace(a[0]) && !IsWhiteSpace(b[|b| - 1])
    ensures Namespace(Prefix + (a + "/" + b) + ";" + rest) == a + "." + b
    ensures HeaderErrors(Prefix + (a + "/" + b) + ";" + rest, "") == []
  {
    PlainPair(a, b);
    WellFormedHeader(a + "/" + b, rest);
  }

  /** A file with no `;` that does not start with white space is reported
      once, not twice: its first 11 characters still trim to a non-empty
      namespace. */
  lemma NoHeaderReportedOnce(code: string, path: string)
    requires ';' !in code && code != [] && !IsWhiteSpace(code[0])
    ensures HeaderErrors(code, path) == [NamespaceMissing(path)]
  {
    NoSemicolon(code);
    var h := code[..Clamp(|Prefix|, 0, |code|)];
    assert h[0] == code[0];
  }

  // ---------------------------------------------------------------------
  // shared by both parsers

  /** The checks of `checks` that fail, in check order. */
  function Reported(checks: seq<CompileError>, fails: CompileError -> bool): seq<CompileError>
  {
    if checks == [] then []
    else (if fails(checks[0]) then [checks[0]] else []) + Reported(checks[1..], fails)
  }

  /** The errors reported are exactly the checks that fail. */
  lemma {:induction false} ReportedMembers(checks: seq<CompileError>, fails: CompileError -> bool, e: CompileError)
    ensures e in Reported(checks, fails) <==> e in checks && fails(e)
  {
    if checks != [] {
      ReportedMembers(checks[1..], fails, e);
      assert checks == [checks[0]] + checks[1..];
    }
  }

  lemma ReportedCons(x: CompileError, s: seq<CompileError>, fails: CompileError -> bool)
    ensures Reported([x] + s, fails) == (if fails(x) then [x] else []) + Reported(s, fails)
  {
    assert ([x] + s)[1..] == s;
  }

  /** Four checks, one after the other. */
  lemma ReportedFour(a: CompileError, b: CompileError, c: CompileError, d: CompileError, fails: CompileError -> bool)
    ensures Reported([a, b, c, d], fails) ==
      (if fails(a) then [a] else [])
      + ((if fails(b) then [b] else [])
      + ((if fails(c) then [c] else [])
      + (if fails(d) then [d] else [])))
  {
    var s3: seq<CompileError> := [d];
    var s2 := [c] + s3;
    var s1 := [b] + s2;
    var s0 := [a] + s1;
    assert Reported(s3, fails) == (if fails(d) then [d] else []) by {
      ReportedCons(d, [], fails);
      assert [d] + [] == s3;
    }
    ReportedCons(c, s3, fails);
    ReportedCons(b, s2, fails);
    ReportedCons(a, s1, fails);
    assert [a, b, c, d] == s0;
  }

  /** `selection.html()?.trim()`: the trimmed inner html of the first
      selected element, or undefined for an empty selection. */
  function TrimmedHtml(sel: seq<string>): (r: Option<string>)
  {
    if sel == [] then None else Some(Trim(sel[0]))
  }

  /** `a ?? b` on optional strings. */
  function OrElse(a: Option<string>, b: Option<string>): Option<string>
  {
    if a.Some? then a else b
  }
}
