/** `UXCompiler` (`src/services/UXCompiler.ts`): parses a `.ux` file into
    its namespace, name, style, html and script, collecting every validation
    error, and substitutes the parts into the component class template. */
module UxCompiler {
  import opened Wrappers
  import opened Js
  import opened JsLiteral
  import opened TextsBetween
  import opened UxHeader

  /** An element as the HTML parser places it: tag name and inner html. */
  datatype Element = Element(tag: string, inner: string)

  /** The parsed document: the children of `<head>` and of `<body>`, in
      document order. */
  datatype Document = Document(head: seq<Element>, body: seq<Element>)

  /** The element is selected: its tag is `t` when `keep` holds, and is
      not `t` otherwise. */
  predicate Picked(e: Element, t: string, keep: bool)
  {
    (e.tag == t) == keep
  }

  /** The inner html of the selected elements, in document order. */
  function Select(els: seq<Element>, t: string, keep: bool): seq<string>
  {
    if els == [] then []
    else (if Picked(els[0], t, keep) then [els[0].inner] else []) + Select(els[1..], t, keep)
  }

  /** The inner html of the elements with tag `t` (`$('head > style')`). */
  function Tagged(els: seq<Element>, t: string): seq<string>
  {
    Select(els, t, true)
  }

  /** The inner html of the elements whose tag is not `t`
      (`$('body > :not(script)')`). */
  function Untagged(els: seq<Element>, t: string): seq<string>
  {
    Select(els, t, false)
  }

  /** The positions of the selected elements, in document order. */
  function Positions(els: seq<Element>, t: string, keep: bool): seq<nat>
  {
    if els == [] then []
    else (if Picked(els[0], t, keep) then [0] else []) + Shift(Positions(els[1..], t, keep))
  }

  /** Every position moved one element further on. */
  function Shift(ps: seq<nat>): (r: seq<nat>)
    ensures |r| == |ps|
    ensures forall k :: 0 <= k < |ps| ==> r[k] == ps[k] + 1
  {
    seq(|ps|, k requires 0 <= k < |ps| => ps[k] + 1)
  }

  /** A selection is the inner html of the elements at the selected
      positions, each of which is selected. */
  lemma {:induction false} SelectAt(els: seq<Element>, t: string, keep: bool)
    ensures |Positions(els, t, keep)| == |Select(els, t, keep)|
    ensures forall k :: 0 <= k < |Positions(els, t, keep)| ==>
      var i := Positions(els, t, keep)[k];
      i < |els| && Picked(els[i], t, keep) && Select(els, t, keep)[k] == els[i].inner
  {
    if els != [] {
      SelectAt(els[1..], t, keep);
      var ps, rest := Positions(els, t, keep), Positions(els[1..], t, keep);
      var ss, srest := Select(els, t, keep), Select(els[1..], t, keep);
      var h := if Picked(els[0], t, keep) then 1 else 0;
      assert |ps| == h + |rest|;
      forall k | 0 <= k < |ps|
        ensures ps[k] < |els| && Picked(els[ps[k]], t, keep) && ss[k] == els[ps[k]].inner
      {
        if k >= h {
          assert ps[k] == rest[k - h] + 1;
          assert ss[k] == srest[k - h];
          assert els[ps[k]] == els[1..][rest[k - h]];
        }
      }
    }
  }

  /** The selected positions are strictly increasing. */
  lemma {:induction false} PositionsIncrease(els: seq<Element>, t: string, keep: bool)
    ensures forall k, l :: 0 <= k < l < |Positions(els, t, keep)| ==>
      Positions(els, t, keep)[k] < Positions(els, t, keep)[l]
  {
    if els != [] {
      PositionsIncrease(els[1..], t, keep);
      var ps, rest := Positions(els, t, keep), Positions(els[1..], t, keep);
      var h := if Picked(els[0], t, keep) then 1 else 0;
      forall k, l | 0 <= k < l < |ps| ensures ps[k] < ps[l] {
        assert ps[l] == rest[l - h] + 1;
        if k >= h {
          assert ps[k] == rest[k - h] + 1;
        }
      }
    }
  }

  /** No selected element is missed. */
  lemma {:induction false} PositionsComplete(els: seq<Element>, t: string, keep: bool, i: nat)
    requires i < |els| && Picked(els[i], t, keep)
    ensures i in Positions(els, t, keep)
  {
    if i > 0 {
      assert els[1..][i - 1] == els[i];
      PositionsComplete(els[1..], t, keep, i - 1);
      var head: seq<nat> := if Picked(els[0], t, keep) then [0] else [];
      ShiftedIn(Positions(els[1..], t, keep), head, i - 1);
      assert Positions(els, t, keep) == head + Shift(Positions(els[1..], t, keep));
    }
  }

  /** A position moved one element further on stays among the positions,
      whatever comes before them. */
  lemma ShiftedIn(ps: seq<nat>, head: seq<nat>, x: nat)
    requires x in ps
    ensures x + 1 in head + Shift(ps)
  {
    var k :| 0 <= k < |ps| && ps[k] == x;
    assert (head + Shift(ps))[|head| + k] == x + 1;
  }

  /** The parsed sections of a `.ux` file (`UXComponentCode`). */
  datatype ComponentCode = ComponentCode(
    namespace: string,
    name: string,
    style: Option<string>,
    html: string,
    variables: seq<string>,
    script: Option<string>)

  // ---------------------------------------------------------------------
  // parse (lines 72-123)

  /** The document checks, in the order the parser makes them. */
  function DocumentChecks(path: string): seq<CompileError>
  {
    [MultipleStyles(path), MultipleHtmlBody(path), HtmlBodyMissing(path), MultipleScript(path)]
  }

  /** The condition under which each document check reports its error. */
  predicate Violates(doc: Document, e: CompileError)
  {
    match e
    case MultipleStyles(_) => |Tagged(doc.head, "style")| + |Tagged(doc.body, "style")| > 1
    case MultipleHtmlBody(_) => |Untagged(doc.body, "script")| > 1
    case HtmlBodyMissing(_) => |Untagged(doc.body, "script")| == 0
    case MultipleScript(_) => |Tagged(doc.head, "script")| + |Tagged(doc.body, "script")| > 1
    case _ => false
  }

  /** The document check `e` fails on `doc`. */
  function FailsOn(doc: Document): CompileError -> bool
  {
    e => Violates(doc, e)
  }

  /** The document errors: the checks that fail, in check order. */
  function DocumentErrors(doc: Document, path: string): seq<CompileError>
  {
    Reported(DocumentChecks(path), FailsOn(doc))
  }

  /** All errors of a file: the header's, then the document's. */
  function ParseErrors(code: string, path: string, load: string -> Document): seq<CompileError>
  {
    HeaderErrors(code, path) + DocumentErrors(load(Body(code)), path)
  }

  /** The sections of a file that passed every check. */
  function Sections(code: string, path: string, doc: Document): ComponentCode
  {
    var html := TrimmedHtml(Untagged(doc.body, "script")).GetOr("");
    ComponentCode(
      Namespace(code),
      Basename(path),
      OrElse(TrimmedHtml(Tagged(doc.head, "style")), TrimmedHtml(Tagged(doc.body, "style"))),
      html,
      Get(html),
      OrElse(TrimmedHtml(Tagged(doc.head, "script")), TrimmedHtml(Tagged(doc.body, "script"))))
  }

  /** Lines 90-107 of the parser: the checks on the parsed document. */
  method CheckDocument(doc: Document, path: string) returns (errors: seq<CompileError>)
    ensures errors == DocumentErrors(doc, path)
  {
    errors := [];
    var headStyle, bodyStyle := Tagged(doc.head, "style"), Tagged(doc.body, "style");
    if |headStyle| + |bodyStyle| > 1 {
      errors := errors + [MultipleStyles(path)];
    }
    var body := Untagged(doc.body, "script");
    if |body| > 1 {
      errors := errors + [MultipleHtmlBody(path)];
    } else if |body| != 1 {
      errors := errors + [HtmlBodyMissing(path)];
    }
    var headScript, bodyScript := Tagged(doc.head, "script"), Tagged(doc.body, "script");
    if |headScript| + |bodyScript| > 1 {
      errors := errors + [MultipleScript(path)];
    }
    DocumentErrorsUnfold(doc, path);
  }

  /** `UXCompiler.parse`: the file's contents are `code` and `load` is the
      HTML parser. Every failing check records its error; the list is
      thrown when it is not empty. */
  method Parse(code: string, path: string, load: string -> Document)
    returns (r: Result<ComponentCode, seq<CompileError>>)
    ensures r.Failure? <==> ParseErrors(code, path, load) != []
    ensures r.Failure? ==> r.error == ParseErrors(code, path, load)
    ensures r.Success? ==> r.value == Sections(code, path, load(Body(code)))
  {
    var namespace, rest, errors := ParseHeader(code, path);
    var doc := load(rest);
    var derrors := CheckDocument(doc, path);
    errors := errors + derrors;
    if |errors| > 0 {
      return Failure(errors);
    }
    var html := TrimmedHtml(Untagged(doc.body, "script")).GetOr("");
    r := Success(ComponentCode(
      namespace,
      Basename(path),
      OrElse(TrimmedHtml(Tagged(doc.head, "style")), TrimmedHtml(Tagged(doc.body, "style"))),
      html,
      Get(html),
      OrElse(TrimmedHtml(Tagged(doc.head, "script")), TrimmedHtml(Tagged(doc.body, "script")))));
  }

  /** The document errors, check by check. */
  lemma DocumentErrorsUnfold(doc: Document, path: string)
    ensures DocumentErrors(doc, path) ==
      (if Violates(doc, MultipleStyles(path)) then [MultipleStyles(path)] else [])
      + ((if Violates(doc, MultipleHtmlBody(path)) then [MultipleHtmlBody(path)] else [])
      + ((if Violates(doc, HtmlBodyMissing(path)) then [HtmlBodyMissing(path)] else [])
      + (if Violates(doc, MultipleScript(path)) then [MultipleScript(path)] else [])))
  {
    ReportedFour(MultipleStyles(path), MultipleHtmlBody(path), HtmlBodyMissing(path), MultipleScript(path), FailsOn(doc));
  }

  /** A file is accepted exactly when its header is well formed and names
      a namespace, it has at most one style and at most one script, and
      its body holds exactly one element besides scripts. */
  lemma ParseAccepts(code: string, path: string, load: string -> Document)
    ensures var doc := load(Body(code));
      ParseErrors(code, path, load) == [] <==>
        && HeaderEnd(code) >= 0 && Namespace(code) != ""
        && |Tagged(doc.head, "style")| + |Tagged(doc.body, "style")| <= 1
        && |Untagged(doc.body, "script")| == 1
        && |Tagged(doc.head, "script")| + |Tagged(doc.body, "script")| <= 1
  {
    DocumentErrorsUnfold(load(Body(code)), path);
  }

  /** Each document error is reported exactly when its check fails. */
  lemma DocumentErrorReported(doc: Document, path: string, e: CompileError)
    requires e in DocumentChecks(path)
    ensures e in DocumentErrors(doc, path) <==> Violates(doc, e)
  {
    ReportedMembers(DocumentChecks(path), FailsOn(doc), e);
  }

  /** One element in front of a list, for both selections. */
  lemma SelectCons(e: Element, els: seq<Element>, t: string)
    ensures Tagged([e] + els, t) == (if e.tag == t then [e.inner] else []) + Tagged(els, t)
    ensures Untagged([e] + els, t) == (if e.tag != t then [e.inner] else []) + Untagged(els, t)
  {
    assert ([e] + els)[1..] == els;
  }

  /** The body of the compiler's invalid test file: two styles, then two
      divs. */
  function InvalidBody(s1: string, s2: string, d1: string, d2: string): seq<Element>
  {
    [Element("style", s1), Element("style", s2), Element("div", d1), Element("div", d2)]
  }

  /** The styles of that body are its two styles. */
  lemma InvalidBodyStyles(s1: string, s2: string, d1: string, d2: string)
    ensures Tagged(InvalidBody(s1, s2, d1, d2), "style") == [s1, s2]
  {
    var e1, e2, e3, e4 := Element("style", s1), Element("style", s2), Element("div", d1), Element("div", d2);
    var l3: seq<Element> := [e3, e4];
    var l2 := [e2] + l3;
    SelectCons(e4, [], "style");
    assert [e4] == [e4] + [];
    SelectCons(e3, [e4], "style");
    assert l3 == [e3] + [e4];
    SelectCons(e2, l3, "style");
    SelectCons(e1, l2, "style");
    assert InvalidBody(s1, s2, d1, d2) == [e1] + l2;
  }

  /** That body holds no script, so all four elements are html. */
  lemma InvalidBodyScripts(s1: string, s2: string, d1: string, d2: string)
    ensures Untagged(InvalidBody(s1, s2, d1, d2), "script") == [s1, s2, d1, d2]
    ensures Tagged(InvalidBody(s1, s2, d1, d2), "script") == []
  {
    var e1, e2, e3, e4 := Element("style", s1), Element("style", s2), Element("div", d1), Element("div", d2);
    var l3: seq<Element> := [e3, e4];
    var l2 := [e2] + l3;
    SelectCons(e4, [], "script");
    assert [e4] == [e4] + [];
    SelectCons(e3, [e4], "script");
    assert l3 == [e3] + [e4];
    SelectCons(e2, l3, "script");
    SelectCons(e1, l2, "script");
    assert InvalidBody(s1, s2, d1, d2) == [e1] + l2;
  }

  /** The document of the invalid test file fails the style check and the
      html check, and no other. */
  lemma InvalidDocumentErrors(path: string, s1: string, s2: string, d1: string, d2: string)
    ensures DocumentErrors(Document([], InvalidBody(s1, s2, d1, d2)), path)
      == [MultipleStyles(path), MultipleHtmlBody(path)]
  {
    var doc := Document([], InvalidBody(s1, s2, d1, d2));
    InvalidBodyStyles(s1, s2, d1, d2);
    InvalidBodyScripts(s1, s2, d1, d2);
    assert Tagged(doc.head, "style") == [] && Tagged(doc.head, "script") == [];
    assert Violates(doc, MultipleStyles(path)) && Violates(doc, MultipleHtmlBody(path));
    assert !Violates(doc, HtmlBodyMissing(path)) && !Violates(doc, MultipleScript(path));
    DocumentErrorsUnfold(doc, path);
  }

  /** A body with two elements and a second style, after a missing header,
      is reported as `[NamespaceMissing, MultipleStyles, MultipleHtmlBody]`
      (the invalid file of the compiler's tests). */
  lemma InvalidFileErrors(code: string, path: string, load: string -> Document, s1: string, s2: string, d1: string, d2: string)
    requires ';' !in code && code != [] && !IsWhiteSpace(code[0])
    requires load(code) == Document([], InvalidBody(s1, s2, d1, d2))
    ensures ParseErrors(code, path, load) == [NamespaceMissing(path), MultipleStyles(path), MultipleHtmlBody(path)]
  {
    NoHeaderReportedOnce(code, path);
    NoSemicolon(code);
    InvalidDocumentErrors(path, s1, s2, d1, d2);
  }

  // ---------------------------------------------------------------------
  // compile (lines 35-59)

  /** The custom element name: the kebab-cased namespace, `-`, the name. */
  function ElementName(code: ComponentCode, kebab: string -> string): string
  {
    kebab(code.namespace) + "-" + code.name
  }

  /** The element of the file `dir/n.ux` is named after the file: the
      kebab-cased namespace its header declares, `-`, then `n`. */
  lemma ElementNameOfFile(code: string, dir: string, n: string, doc: Document, kebab: string -> string)
    requires n != "" && '/' !in n
    ensures ElementName(Sections(code, dir + "/" + n + ".ux", doc), kebab) == kebab(Namespace(code)) + "-" + n
  {
    BasenameOfFile(dir, n);
  }

  /** `t.replace(/'/g, "\\'")`: each quote preceded by a backslash. */
  function EscapeQuotes(t: string): string
  {
    ReplaceChar(t, '\'', "\\'")
  }

  /** A literal part as the source writes it: quotes escaped, line feeds
      removed, the rest copied. */
  function LiteralAsWritten(t: string): string
  {
    "'" + RemoveChar(EscapeQuotes(t), '\n') + "'"
  }

  /** The style substitution as the source writes it: the template literal
      is never undefined, so an absent style is spelled out. */
  function StyleAsWritten(style: Option<string>): string
  {
    match style
    case Some(s) => LiteralAsWritten(s)
    case None => "'" + Undefined + "'"
  }

  lemma {:induction false} RemoveCharAppend(a: string, b: string, c: char)
    ensures RemoveChar(a + b, c) == RemoveChar(a, c) + RemoveChar(b, c)
  {
    if a != [] {
      assert (a + b)[1..] == a[1..] + b;
      RemoveCharAppend(a[1..], b, c);
    } else {
      assert a + b == b;
    }
  }

  lemma {:induction false} EscapeQuotesAppend(a: string, b: string)
    ensures EscapeQuotes(a + b) == EscapeQuotes(a) + EscapeQuotes(b)
  {
    if a != [] {
      assert (a + b)[1..] == a[1..] + b;
      EscapeQuotesAppend(a[1..], b);
    } else {
      assert a + b == b;
    }
  }

  /** One character: removing a line feed and escaping a quote commute. */
  lemma CharCommute(x: char)
    ensures RemoveChar(EscapeQuotes([x]), '\n') == EscapeQuotes(RemoveChar([x], '\n'))
  {
    assert [x][1..] == [];
    if x == '\'' {
      var q := "\\'";
      assert ReplaceChar([x][1..], x, q) == [];
      assert RemoveChar([x], '\n') == [x];
      assert q[1..][1..] == [];
      assert RemoveChar(q[1..], '\n') == q[1..];
    } else {
      assert ReplaceChar([x][1..], '\'', "\\'") == [];
    }
  }

  /** Removing line feeds and escaping quotes can be done in either order. */
  lemma {:induction false} RemoveEscapeCommute(t: string)
    ensures RemoveChar(EscapeQuotes(t), '\n') == EscapeQuotes(RemoveChar(t, '\n'))
  {
    if t != [] {
      var h, t' := [t[0]], t[1..];
      assert t == h + t';
      assert EscapeQuotes(t) == EscapeQuotes(h) + EscapeQuotes(t') by { EscapeQuotesAppend(h, t'); }
      assert RemoveChar(EscapeQuotes(h) + EscapeQuotes(t'), '\n')
        == RemoveChar(EscapeQuotes(h), '\n') + RemoveChar(EscapeQuotes(t'), '\n') by {
        RemoveCharAppend(EscapeQuotes(h), EscapeQuotes(t'), '\n');
      }
      assert RemoveChar(EscapeQuotes(t'), '\n') == EscapeQuotes(RemoveChar(t', '\n')) by { RemoveEscapeCommute(t'); }
      assert RemoveChar(EscapeQuotes(h), '\n') == EscapeQuotes(RemoveChar(h, '\n')) by { CharCommute(t[0]); }
      assert RemoveChar(t, '\n') == RemoveChar(h, '\n') + RemoveChar(t', '\n') by { RemoveCharAppend(h, t', '\n'); }
      EscapeQuotesAppend(RemoveChar(h, '\n'), RemoveChar(t', '\n'));
    }
  }

  /** Text without backslashes and line breaks, its quotes escaped, decodes
      back to itself. */
  lemma {:induction false} EscapeQuotesDecode(u: string)
    requires '\\' !in u && '\r' !in u && '\n' !in u
    ensures DecodeBody(EscapeQuotes(u)) == Some(u)
  {
    if u != [] {
      EscapeQuotesDecode(u[1..]);
      var r := EscapeQuotes(u[1..]);
      if u[0] == '\'' {
        var w := "\\'" + r;
        assert w[0] == '\\' && w[1] == '\'' && w[2..] == r;
      } else {
        assert ([u[0]] + r)[1..] == r;
      }
      assert [u[0]] + u[1..] == u;
    }
  }

  /** For text without backslashes or carriage returns the literal as
      written denotes the text without its line feeds. */
  lemma LiteralAsWrittenSound(t: string)
    requires '\\' !in t && '\r' !in t
    ensures Decode(LiteralAsWritten(t)) == Some(RemoveChar(t, '\n'))
  {
    RemoveEscapeCommute(t);
    EscapeQuotesDecode(RemoveChar(t, '\n'));
    var s := LiteralAsWritten(t);
    assert s[1..|s| - 1] == RemoveChar(EscapeQuotes(t), '\n');
  }

  /** A backslash in the html breaks the generated literal: `\` becomes
      `'\'`, whose closing quote is escaped. */
  lemma LiteralAsWrittenBackslash()
    ensures Decode(LiteralAsWritten("\\")) == None
  {
    assert EscapeQuotes("\\") == "\\";
    assert RemoveChar("\\", '\n') == "\\";
  }

  /** A carriage return (a CRLF line ending) stays raw in the generated
      literal, where it is a syntax error. */
  lemma LiteralAsWrittenCarriageReturn()
    ensures Decode(LiteralAsWritten("\r")) == None
  {
    assert EscapeQuotes("\r") == "\r";
    assert RemoveChar("\r", '\n') == "\r";
  }

  /** Without a style the generated code styles the component with the
      text `undefined`. */
  lemma StyleAsWrittenUndefined()
    ensures Decode(StyleAsWritten(None)) == Some(Undefined)
  {
    PlainWord(Undefined);
  }

  /** A word without quotes, backslashes and line breaks, quoted as it is,
      denotes itself. */
  lemma PlainWord(u: string)
    requires '\\' !in u && '\r' !in u && '\n' !in u && '\'' !in u
    ensures Decode("'" + u + "'") == Some(u)
  {
    EscapeQuotesDecode(u);
    ReplaceCharWithout(u, '\'', "\\'");
    var s := "'" + u + "'";
    assert s[1..|s| - 1] == u;
  }

  /** A literal part: the text without line feeds, quoted. */
  function LiteralExpression(t: string): (e: string)
    ensures Decode(e) == Some(RemoveChar(t, '\n'))
  {
    DecodeQuote(RemoveChar(t, '\n'));
    Quote(RemoveChar(t, '\n'))
  }

  /** The text around the quoted name of an attribute lookup. */
  const AttrOpen: string := "(this.getAttribute("
  const AttrClose: string := ") || '')"

  /** A variable part: the attribute's value, or the empty string. */
  function AttributeExpression(v: string): (e: string)
    ensures exists q :: e == AttrOpen + q + AttrClose && Decode(q) == Some(v)
  {
    DecodeQuote(v);
    AttrOpen + Quote(v) + AttrClose
  }

  /** The expression for one part of the html. */
  function PartExpression(p: Part): string
  {
    match p
    case Literal(t) => LiteralExpression(t)
    case Variable(v) => AttributeExpression(v)
  }

  /** The expressions of a run of parts, in order. */
  function PartExpressions(parts: seq<Part>): (es: seq<string>)
    ensures |es| == |parts|
  {
    if parts == [] then [] else [PartExpression(parts[0])] + PartExpressions(parts[1..])
  }

  /** The `[html]` substitution: the parts' expressions joined with `+`. */
  function HtmlExpression(html: string): string
  {
    Join(PartExpressions(Split(html)), "+")
  }

  /** The `[style]` substitution: the style, without line feeds, quoted; the
      empty literal when there is no style. */
  function StyleExpression(style: Option<string>): (e: string)
    ensures Decode(e) == Some(match style case Some(s) => RemoveChar(s, '\n') case None => "")
  {
    match style
    case Some(s) => LiteralExpression(s)
    case None => DecodeQuote(""); Quote("")
  }

  // ---------------------------------------------------------------------
  // What the generated html expression evaluates to

  /** What one part shows in a component whose attributes are `attr`: a
      literal its text without line feeds, a variable the attribute's value,
      or the empty string when the attribute is absent. */
  function PartValue(p: Part, attr: string -> Option<string>): string
  {
    match p
    case Literal(t) => RemoveChar(t, '\n')
    case Variable(v) => attr(v).GetOr("")
  }

  /** What a run of parts shows, in order. */
  function Shown(parts: seq<Part>, attr: string -> Option<string>): string
  {
    if parts == [] then "" else PartValue(parts[0], attr) + Shown(parts[1..], attr)
  }

  /** The value of the term at the start of `s` and the text after it: a
      string literal, or an attribute lookup with the empty string as
      fallback. None when `s` starts with neither. */
  function EvalTerm(s: string, attr: string -> Option<string>): (r: Option<(string, string)>)
    ensures r.Some? ==> |r.value.1| < |s|
  {
    if StartsWith(s, AttrOpen) then
      match ScanLiteral(s[|AttrOpen|..])
      case Some((name, rest)) =>
        if StartsWith(rest, AttrClose) then Some((attr(name).GetOr(""), rest[|AttrClose|..])) else None
      case None => None
    else ScanLiteral(s)
  }

  /** The value of a sum of terms, `t1+t2+...+tn`, or None when `s` is not
      one. */
  function EvalSum(s: string, attr: string -> Option<string>): Option<string>
    decreases |s|
  {
    match EvalTerm(s, attr)
    case None => None
    case Some((v, rest)) =>
      if rest == [] then Some(v)
      else if rest[0] != '+' then None
      else match EvalSum(rest[1..], attr)
        case Some(w) => Some(v + w)
        case None => None
  }

  /** A quoted text followed by any text is read as a string literal. */
  lemma EvalTermLiteral(u: string, rest: string, attr: string -> Option<string>)
    ensures EvalTerm(Quote(u) + rest, attr) == Some((u, rest))
  {
    var s := Quote(u) + rest;
    ScanQuote(u, rest);
    assert s[0] == '\'' && AttrOpen[0] == '(';
    assert !StartsWith(s, AttrOpen);
  }

  /** An attribute lookup followed by any text is read as the lookup. */
  lemma EvalTermAttribute(v: string, rest: string, attr: string -> Option<string>)
    ensures EvalTerm(AttrOpen + Quote(v) + AttrClose + rest, attr) == Some((attr(v).GetOr(""), rest))
  {
    var after := AttrClose + rest;
    var s := AttrOpen + Quote(v) + after;
    assert AttrOpen + Quote(v) + AttrClose + rest == s;
    assert StartsWith(s, AttrOpen) && s[|AttrOpen|..] == Quote(v) + after;
    ScanQuote(v, after);
    assert StartsWith(after, AttrClose) && after[|AttrClose|..] == rest;
  }

  /** A part's expression, followed by any text, is read as one term whose
      value is what the part shows. */
  lemma EvalTermPart(p: Part, rest: string, attr: string -> Option<string>)
    ensures EvalTerm(PartExpression(p) + rest, attr) == Some((PartValue(p, attr), rest))
  {
    match p
    case Literal(t) =>
      EvalTermLiteral(RemoveChar(t, '\n'), rest, attr);
    case Variable(v) =>
      EvalTermAttribute(v, rest, attr);
  }

  /** A last term is the whole sum. */
  lemma EvalSumLast(s: string, attr: string -> Option<string>, v: string)
    requires EvalTerm(s, attr) == Some((v, ""))
    ensures EvalSum(s, attr) == Some(v)
  {
  }

  /** A term, `+`, then a sum: the values add up. */
  lemma EvalSumPlus(s: string, attr: string -> Option<string>, v: string, tail: string, w: string)
    requires EvalTerm(s, attr) == Some((v, "+" + tail))
    requires EvalSum(tail, attr) == Some(w)
    ensures EvalSum(s, attr) == Some(v + w)
  {
    assert ("+" + tail)[1..] == tail;
  }

  /** The `+`-joined expressions of a non-empty run of parts evaluate to
      what the parts show. */
  lemma {:induction false} EvalJoin(parts: seq<Part>, attr: string -> Option<string>)
    requires parts != []
    ensures EvalSum(Join(PartExpressions(parts), "+"), attr) == Some(Shown(parts, attr))
  {
    if |parts| == 1 {
      EvalJoinOne(parts[0], attr);
      assert parts == [parts[0]];
    } else {
      EvalJoin(parts[1..], attr);
      EvalJoinCons(parts[0], parts[1..], attr);
      assert parts == [parts[0]] + parts[1..];
    }
  }

  lemma ConcatAssoc(a: string, b: string, c: string)
    ensures a + b + c == a + (b + c)
  {
  }

  lemma EvalJoinOne(p: Part, attr: string -> Option<string>)
    ensures EvalSum(Join(PartExpressions([p]), "+"), attr) == Some(Shown([p], attr))
  {
    var e := PartExpression(p);
    assert PartExpressions([p]) == [e] by {
      assert [p][1..] == [];
    }
    assert Join([e], "+") == e;
    EvalTermPart(p, "", attr);
    assert e + "" == e;
    EvalSumLast(e, attr, PartValue(p, attr));
    assert Shown([p], attr) == PartValue(p, attr) by {
      assert [p][1..] == [];
      assert PartValue(p, attr) + "" == PartValue(p, attr);
    }
  }

  lemma EvalJoinCons(p: Part, ps: seq<Part>, attr: string -> Option<string>)
    requires ps != []
    requires EvalSum(Join(PartExpressions(ps), "+"), attr) == Some(Shown(ps, attr))
    ensures EvalSum(Join(PartExpressions([p] + ps), "+"), attr) == Some(Shown([p] + ps, attr))
  {
    var e := PartExpression(p);
    var tail := Join(PartExpressions(ps), "+");
    assert ([p] + ps)[1..] == ps;
    assert PartExpressions([p] + ps) == [e] + PartExpressions(ps);
    assert Join([e] + PartExpressions(ps), "+") == e + "+" + tail by {
      JoinCons(e, PartExpressions(ps), "+");
    }
    EvalTermPart(p, "+" + tail, attr);
    ConcatAssoc(e, "+", tail);
    EvalSumPlus(e + "+" + tail, attr, PartValue(p, attr), tail, Shown(ps, attr));
  }

  /** The `[html]` substitution is a JavaScript expression whose value, in
      a component whose attributes are `attr`, is the html with its line
      feeds dropped and each placeholder replaced by its attribute's value
      (the empty string when absent). Empty html gives an empty substitution. */
  lemma HtmlExpressionMeaning(html: string, attr: string -> Option<string>)
    ensures html != "" ==> EvalSum(HtmlExpression(html), attr) == Some(Shown(Split(html), attr))
    ensures html == "" ==> HtmlExpression(html) == ""
  {
    SplitRender(html);
    if html != "" {
      EvalJoin(Split(html), attr);
    }
  }

  // ---------------------------------------------------------------------
  // The expressions as the source writes them

  /** A name quoted as the source quotes it: only quotes escaped. */
  function QuoteAsWritten(v: string): string
  {
    "'" + EscapeQuotes(v) + "'"
  }

  /** A variable part as the source writes it. */
  function AttributeAsWritten(v: string): string
  {
    AttrOpen + QuoteAsWritten(v) + AttrClose
  }

  function PartAsWritten(p: Part): string
  {
    match p
    case Literal(t) => LiteralAsWritten(t)
    case Variable(v) => AttributeAsWritten(v)
  }

  function PartsAsWritten(parts: seq<Part>): seq<string>
  {
    if parts == [] then [] else [PartAsWritten(parts[0])] + PartsAsWritten(parts[1..])
  }

  /** The `[html]` substitution as the source writes it. */
  function HtmlAsWritten(html: string): string
  {
    Join(PartsAsWritten(Split(html)), "+")
  }

  /** Without backslashes and line breaks, escaping every special character
      is escaping the quotes. */
  lemma {:induction false} EscapePlain(u: string)
    requires '\\' !in u && '\n' !in u && '\r' !in u
    ensures Escape(u) == EscapeQuotes(u)
  {
    if u != [] {
      EscapePlain(u[1..]);
    }
  }

  /** For text without `\` or CR the literal is the one the source writes,
      character for character. */
  lemma LiteralAgrees(t: string)
    requires '\\' !in t && '\r' !in t
    ensures LiteralExpression(t) == LiteralAsWritten(t)
  {
    EscapePlain(RemoveChar(t, '\n'));
    RemoveEscapeCommute(t);
  }

  /** For a name without `\` or line breaks the attribute lookup is the one
      the source writes. */
  lemma AttributeAgrees(v: string)
    requires '\\' !in v && '\n' !in v && '\r' !in v
    ensures AttributeExpression(v) == AttributeAsWritten(v)
  {
    EscapePlain(v);
    assert Quote(v) == QuoteAsWritten(v);
  }

  /** For a style without `\` or CR the style literal is the one the source
      writes. */
  lemma StyleAgrees(s: string)
    requires '\\' !in s && '\r' !in s
    ensures StyleExpression(Some(s)) == StyleAsWritten(Some(s))
  {
    LiteralAgrees(s);
  }

  /** A part the corrected quoting writes as the source does. */
  predicate PartPlain(p: Part)
  {
    match p
    case Literal(t) => '\\' !in t && '\r' !in t
    case Variable(v) => '\\' !in v && '\n' !in v && '\r' !in v
  }

  lemma {:induction false} PartsAgree(parts: seq<Part>)
    requires forall n :: 0 <= n < |parts| ==> PartPlain(parts[n])
    ensures PartExpressions(parts) == PartsAsWritten(parts)
  {
    if parts != [] {
      PartsAgree(parts[1..]);
      match parts[0]
      case Literal(t) => LiteralAgrees(t);
      case Variable(v) => AttributeAgrees(v);
    }
  }

  /** Every character of a part is a character of the rendered run. */
  lemma {:induction false} PartInRender(parts: seq<Part>, n: nat)
    requires n < |parts|
    ensures forall c :: c in PartSource(parts[n]) ==> c in Render(parts)
  {
    if n > 0 {
      PartInRender(parts[1..], n - 1);
    }
  }

  /** Every variable part's name is among the run's names. */
  lemma {:induction false} VariableInNames(parts: seq<Part>, n: nat)
    requires n < |parts| && parts[n].Variable?
    ensures parts[n].name in Names(parts)
  {
    if n > 0 {
      VariableInNames(parts[1..], n - 1);
    }
  }

  /** Html without `\` or CR, whose placeholder names hold no line feed,
      gets exactly the `[html]` substitution the source writes. */
  lemma HtmlAgrees(html: string)
    requires '\\' !in html && '\r' !in html
    requires forall v :: v in Get(html) ==> '\n' !in v
    ensures HtmlExpression(html) == HtmlAsWritten(html)
  {
    var parts := Split(html);
    SplitRender(html);
    forall n | 0 <= n < |parts| ensures PartPlain(parts[n]) {
      PartInRender(parts, n);
      if parts[n].Variable? {
        VariableInNames(parts, n);
        assert forall c :: c in parts[n].name ==> c in PartSource(parts[n]);
      }
    }
    PartsAgree(parts);
  }

  // ---------------------------------------------------------------------
  // The template callback

  /** `uxComponentCode[key]?.toString() ?? ''` for the other keys: arrays
      print joined with commas, missing values as the empty string. */
  function FieldText(code: ComponentCode, key: string): string
  {
    if key == "name" then code.name
    else if key == "variables" then Join(code.variables, ",")
    else if key == "script" then code.script.GetOr("")
    else ""
  }

  /** The other keys: the name and the script as they are, no text for an
      absent script or an unknown key, and the variables comma-joined, so
      that splitting at the commas gives them back when none holds a comma. */
  lemma FieldTextValues(code: ComponentCode, key: string)
    ensures key == "name" ==> FieldText(code, key) == code.name
    ensures key == "script" ==> FieldText(code, key) == code.script.GetOr("")
    ensures key !in {"name", "variables", "script"} ==> FieldText(code, key) == ""
    ensures key == "variables" && code.variables != [] && (forall n :: 0 <= n < |code.variables| ==> ',' !in code.variables[n])
      ==> SplitOn(FieldText(code, key), ',') == code.variables
  {
    if key == "variables" && code.variables != [] && (forall n :: 0 <= n < |code.variables| ==> ',' !in code.variables[n]) {
      SplitOnJoin(code.variables, ',');
    }
  }

  /** The callback handed to the template's `replace`. */
  function Substitution(code: ComponentCode, kebab: string -> string): string -> string
  {
    key =>
      if key == "html" then HtmlExpression(code.html)
      else if key == "style" then StyleExpression(code.style)
      else if key == "namespace" then kebab(code.namespace)
      else FieldText(code, key)
  }

  /** What the callback inserts: for `html` an expression whose value is the
      html with each placeholder's attribute filled in; for `style` a literal
      denoting the style without line feeds, or the empty literal; for
      `namespace` the kebab-cased namespace; for other keys the field's text. */
  lemma SubstitutionMeaning(code: ComponentCode, kebab: string -> string, attr: string -> Option<string>)
    ensures code.html != "" ==>
      EvalSum(Substitution(code, kebab)("html"), attr) == Some(Shown(Split(code.html), attr))
    ensures Decode(Substitution(code, kebab)("style")) ==
      Some(match code.style case Some(s) => RemoveChar(s, '\n') case None => "")
    ensures Substitution(code, kebab)("namespace") == kebab(code.namespace)
    ensures forall key :: key !in {"html", "style", "namespace"} ==> Substitution(code, kebab)(key) == FieldText(code, key)
  {
    HtmlExpressionMeaning(code.html, attr);
    assert Substitution(code, kebab)("style") == StyleExpression(code.style);
  }

  /** The generated component class source. */
  function ComponentSource(code: ComponentCode, template: string, kebab: string -> string): string
  {
    Replace(template, Substitution(code, kebab))
  }

  /** A template without placeholders is copied unchanged. */
  lemma TemplateWithoutPlaceholders(code: ComponentCode, template: string, kebab: string -> string)
    requires forall n :: 0 <= n < |Split(template)| ==> Split(template)[n].Literal?
    ensures ComponentSource(code, template, kebab) == template
  {
    ReplaceLiteralOnly(template, Substitution(code, kebab));
  }
}
