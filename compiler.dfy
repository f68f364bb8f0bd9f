/** `Compiler` (`src/services/Compiler.ts`): parses a `.ux` file into its
    namespace, name, style, template html, script and the template's
    variables split into plain variables and `i18n:` keys, collecting every
    validation error; and fills the component template from the generated
    code. */
module Compiler {
  import opened Wrappers
  import opened Js
  import opened TextsBetween
  import opened UxHeader

  /** What the HTML parser selects from the file: the inner html of every
      `style`, `script` and `template` element, in document order. */
  datatype Markup = Markup(styles: seq<string>, scripts: seq<string>, templates: seq<string>)

  /** The parsed sections of a `.ux` file (`UXCode`). */
  datatype UXCode = UXCode(
    namespace: string,
    name: string,
    style: Option<string>,
    html: string,
    variables: seq<string>,
    i18ns: seq<string>,
    script: Option<string>)

  // ---------------------------------------------------------------------
  // parse (lines 80-139)

  /** The markup checks, in the order the parser makes them. */
  function MarkupChecks(path: string): seq<CompileError>
  {
    [MultipleStyles(path), MultipleScript(path), MultipleTemplate(path), TemplateMissing(path)]
  }

  /** The condition under which each markup check reports its error. */
  predicate Violates(m: Markup, e: CompileError)
  {
    match e
    case MultipleStyles(_) => |m.styles| > 1
    case MultipleScript(_) => |m.scripts| > 1
    case MultipleTemplate(_) => |m.templates| > 1
    case TemplateMissing(_) => |m.templates| == 0
    case _ => false
  }

  /** The markup check `e` fails on `m`. */
  function FailsOn(m: Markup): CompileError -> bool
  {
    e => Violates(m, e)
  }

  /** The markup errors: the checks that fail, in check order. */
  function MarkupErrors(m: Markup, path: string): seq<CompileError>
  {
    Reported(MarkupChecks(path), FailsOn(m))
  }

  /** The markup errors, check by check. */
  lemma MarkupErrorsUnfold(m: Markup, path: string)
    ensures MarkupErrors(m, path) ==
      (if |m.styles| > 1 then [MultipleStyles(path)] else [])
      + ((if |m.scripts| > 1 then [MultipleScript(path)] else [])
      + ((if |m.templates| > 1 then [MultipleTemplate(path)] else [])
      + (if |m.templates| == 0 then [TemplateMissing(path)] else [])))
  {
    ReportedFour(MultipleStyles(path), MultipleScript(path), MultipleTemplate(path), TemplateMissing(path), FailsOn(m));
  }

  /** All errors of a file: the header's, then the markup's. */
  function ParseErrors(code: string, path: string, load: string -> Markup): seq<CompileError>
  {
    HeaderErrors(code, path) + MarkupErrors(load(Body(code)), path)
  }

  /** A variable written `[i18n:...]` names a translation key. */
  predicate IsI18n(v: string)
  {
    StartsWith(v, "i18n:")
  }

  predicate IsPlain(v: string)
  {
    !IsI18n(v)
  }

  /** The template's distinct variables, in order of first appearance. */
  function AllVariables(html: string): seq<string>
  {
    Uniq(Get(html))
  }

  /** The plain variables of a template. */
  function Variables(html: string): seq<string>
  {
    Filter(AllVariables(html), IsPlain)
  }

  /** The translation keys of a template. */
  function I18ns(html: string): seq<string>
  {
    Filter(AllVariables(html), IsI18n)
  }

  /** The sections of a file that passed every check. */
  function Sections(code: string, path: string, m: Markup): UXCode
  {
    var html := TrimmedHtml(m.templates).GetOr("");
    UXCode(
      Namespace(code),
      Basename(path),
      TrimmedHtml(m.styles),
      html,
      Variables(html),
      I18ns(html),
      TrimmedHtml(m.scripts))
  }

  /** Lines 99-123 of the parser: the checks on the selected elements. */
  method CheckMarkup(m: Markup, path: string) returns (errors: seq<CompileError>)
    ensures errors == MarkupErrors(m, path)
  {
    errors := [];
    if |m.styles| > 1 {
      errors := errors + [MultipleStyles(path)];
    }
    if |m.scripts| > 1 {
      errors := errors + [MultipleScript(path)];
    }
    if |m.templates| > 1 {
      errors := errors + [MultipleTemplate(path)];
    } else if |m.templates| != 1 {
      errors := errors + [TemplateMissing(path)];
    }
    MarkupErrorsUnfold(m, path);
  }

  /** `Compiler.parse`: the file's contents are `code` and `load` is the
      HTML parser. Every failing check records its error; the list is
      thrown when it is not empty. */
  method Parse(code: string, path: string, load: string -> Markup)
    returns (r: Result<UXCode, seq<CompileError>>)
    ensures r.Failure? <==> ParseErrors(code, path, load) != []
    ensures r.Failure? ==> r.error == ParseErrors(code, path, load)
    ensures r.Success? ==> r.value == Sections(code, path, load(Body(code)))
  {
    var namespace, rest, errors := ParseHeader(code, path);
    var m := load(rest);
    var merrors := CheckMarkup(m, path);
    errors := errors + merrors;
    if |errors| > 0 {
      return Failure(errors);
    }
    var html := TrimmedHtml(m.templates).GetOr("");
    var all := Uniq(Get(html));
    r := Success(UXCode(
      namespace,
      Basename(path),
      TrimmedHtml(m.styles),
      html,
      Filter(all, IsPlain),
      Filter(all, IsI18n),
      TrimmedHtml(m.scripts)));
  }

  /** A file is accepted exactly when its header is well formed and names
      a namespace, it has at most one style and at most one script, and
      exactly one template. */
  lemma ParseAccepts(code: string, path: string, load: string -> Markup)
    ensures var m := load(Body(code));
      ParseErrors(code, path, load) == [] <==>
        && HeaderEnd(code) >= 0 && Namespace(code) != ""
        && |m.styles| <= 1 && |m.scripts| <= 1 && |m.templates| == 1
  {
    MarkupErrorsUnfold(load(Body(code)), path);
  }

  /** Each markup error is reported exactly when its check fails. */
  lemma MarkupErrorReported(m: Markup, path: string, e: CompileError)
    requires e in MarkupChecks(path)
    ensures e in MarkupErrors(m, path) <==> Violates(m, e)
  {
    ReportedMembers(MarkupChecks(path), FailsOn(m), e);
  }

  /** The plain variables and the translation keys split the distinct
      variables: each one lands in exactly one of the two lists, the keys
      are exactly the variables starting with `i18n:`, and neither list
      holds anything else. */
  lemma VariablesPartition(html: string)
    ensures multiset(Variables(html)) + multiset(I18ns(html)) == multiset(AllVariables(html))
    ensures forall v :: v in I18ns(html) <==> v in Get(html) && IsI18n(v)
    ensures forall v :: v in Variables(html) <==> v in Get(html) && !IsI18n(v)
    ensures forall v :: !(v in Variables(html) && v in I18ns(html))
  {
    FilterSplits(AllVariables(html), IsI18n, IsPlain);
  }

  /** Both lists keep the order in which the variables first appear in the
      template, and neither holds a repeat. */
  lemma VariablesInOrder(html: string)
    ensures InOrderOf(Variables(html), Get(html)) && NoDuplicates(Variables(html))
    ensures InOrderOf(I18ns(html), Get(html)) && NoDuplicates(I18ns(html))
  {
    UniqInOrder(Get(html));
    FilterInOrder(AllVariables(html), Get(html), IsPlain);
    FilterInOrder(AllVariables(html), Get(html), IsI18n);
    InOrderNoDuplicates(Variables(html), Get(html));
    InOrderNoDuplicates(I18ns(html), Get(html));
  }

  // ---------------------------------------------------------------------
  // compile (lines 50-58)

  /** A value of the generated code: a list of lines, or a text. */
  datatype CodeValue = Lines(lines: seq<string>) | Text(text: string)

  /** The callback handed to the template's `replace`: a list is joined
      with line feeds, a text is inserted as it is; a missing key puts
      `undefined` into the output. */
  function Substitution(generated: map<string, CodeValue>): string -> string
  {
    key =>
      if key !in generated then Undefined
      else match generated[key]
        case Lines(ls) => Join(ls, "\n")
        case Text(t) => t
  }

  /** The generated component source. */
  function ComponentSource(template: string, generated: map<string, CodeValue>): string
  {
    Replace(template, Substitution(generated))
  }

  /** What the callback inserts: a text as it is, `undefined` for a key the
      generator did not produce, and a list of lines joined with line feeds,
      so that splitting the inserted text at its line feeds gives the list
      back when no line holds a line feed. */
  lemma SubstitutionValues(generated: map<string, CodeValue>, key: string)
    ensures key !in generated ==> Substitution(generated)(key) == Undefined
    ensures key in generated && generated[key].Text? ==> Substitution(generated)(key) == generated[key].text
    ensures key in generated && generated[key].Lines? && |generated[key].lines| >= 1
      && (forall n :: 0 <= n < |generated[key].lines| ==> '\n' !in generated[key].lines[n])
      ==> SplitOn(Substitution(generated)(key), '\n') == generated[key].lines
  {
    if key in generated && generated[key].Lines? && |generated[key].lines| >= 1
      && (forall n :: 0 <= n < |generated[key].lines| ==> '\n' !in generated[key].lines[n]) {
      SplitOnJoin(generated[key].lines, '\n');
    }
  }

  /** A template without placeholders is copied unchanged. */
  lemma TemplateWithoutPlaceholders(template: string, generated: map<string, CodeValue>)
    requires forall n :: 0 <= n < |Split(template)| ==> Split(template)[n].Literal?
    ensures ComponentSource(template, generated) == template
  {
    ReplaceLiteralOnly(template, Substitution(generated));
  }
}
