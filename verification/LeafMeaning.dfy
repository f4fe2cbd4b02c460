/** What the components that look at one element alone ask of it, in terms of texts put together from parts, words
    and letters, and that this is what their evaluation by slices and positions computes. */
module LeafMeaning {
  import opened Dom
  import opened Selectors
  import opened Semantics

  /** Letters of the ASCII alphabet that differ in case only. */
  predicate SameLetter(a: char, b: char) {
    || ('a' <= b <= 'z' && a as int == b as int - 32)
    || ('a' <= a <= 'z' && b as int == a as int - 32)
  }

  /** The same text, up to the case of letters if `fold`. */
  predicate Same(fold: bool, a: string, b: string) {
    |a| == |b| && forall i | 0 <= i < |a| :: a[i] == b[i] || (fold && SameLetter(a[i], b[i]))
  }

  lemma CaseEqIsSame(cs: CaseSensitivity, a: string, b: string)
    ensures CaseEq(cs, a, b) <==> Same(cs.AsciiCaseInsensitive?, a, b)
  {
    if cs.AsciiCaseInsensitive? {
      if Lower(a) == Lower(b) {
        forall i | 0 <= i < |a|
          ensures a[i] == b[i] || SameLetter(a[i], b[i])
        {
          assert Lower(a)[i] == LowerChar(a[i]) && Lower(b)[i] == LowerChar(b[i]);
        }
      }
    }
  }

  // ------------------------------------------------- attribute operators

  predicate IsBlank(ch: char) {
    ch == ' ' || 9 <= ch as int <= 10 || 12 <= ch as int <= 13
  }

  lemma BlankIsWhitespace(ch: char)
    ensures IsBlank(ch) <==> IsSelectorWhitespace(ch)
  {
  }

  /** The text from `start` on, cut at every white space; between two of them lies an empty
      word. */
  function Words(e: string, start: nat): (words: seq<string>)
    requires start <= |e|
    decreases |e| - start
  {
    var k := FirstBlank(e, start);
    [e[start..k]] + if k < |e| then Words(e, k + 1) else []
  }

  function FirstBlank(e: string, start: nat): (k: nat)
    requires start <= |e|
    ensures start <= k <= |e| && (forall i | start <= i < k :: !IsBlank(e[i]))
    ensures k < |e| ==> IsBlank(e[k])
    decreases |e| - start
  {
    if start == |e| || IsBlank(e[start]) then start else FirstBlank(e, start + 1)
  }

  ghost predicate StartsWith(fold: bool, e: string, s: string) {
    exists head, rest {:trigger Parts(e, "", head, rest)} :: Parts(e, "", head, rest) && Same(fold, head, s)
  }

  ghost predicate EndsWith(fold: bool, e: string, s: string) {
    exists rest, tail {:trigger Parts(e, rest, tail, "")} :: Parts(e, rest, tail, "") && Same(fold, tail, s)
  }

  ghost predicate Contains(fold: bool, e: string, s: string) {
    exists before, part, after {:trigger Parts(e, before, part, after)} ::
      Parts(e, before, part, after) && Same(fold, part, s)
  }

  predicate Parts(e: string, a: string, b: string, c: string) {
    e == a + b + c
  }

  ghost predicate HasWord(fold: bool, e: string, s: string) {
    exists word | word in Words(e, 0) :: Same(fold, word, s)
  }

  /** The value, or the value, a hyphen and more. */
  ghost predicate StartsWithDash(fold: bool, e: string, s: string) {
    exists head, rest {:trigger Parts(e, head, "-", rest)} :: Parts(e, head, "-", rest) && Same(fold, head, s)
  }

  ghost predicate OperatorAsks(op: AttrOperator, e: string, s: string, fold: bool) {
    match op
    case Equal => Same(fold, e, s)
    case Prefix => s != "" && StartsWith(fold, e, s)
    case Suffix => s != "" && EndsWith(fold, e, s)
    case Substring => s != "" && Contains(fold, e, s)
    case Includes => s != "" && HasWord(fold, e, s)
    case DashMatch => Same(fold, e, s) || StartsWithDash(fold, e, s)
  }

  lemma OperatorMeans(op: AttrOperator, e: string, s: string, cs: CaseSensitivity)
    ensures EvalOperator(op, e, s, cs) <==> OperatorAsks(op, e, s, cs.AsciiCaseInsensitive?)
  {
    var fold := cs.AsciiCaseInsensitive?;
    forall a: string
      ensures CaseEq(cs, a, s) <==> Same(fold, a, s)
    {
      CaseEqIsSame(cs, a, s);
    }
    match op {
      case Equal =>
      case Prefix => PrefixMeans(fold, e, s);
      case Suffix => SuffixMeans(fold, e, s);
      case Substring => SubstringMeans(fold, e, s);
      case Includes =>
        if s != "" {
          IncludesMeans(cs, e, s);
        }
      case DashMatch => DashMeans(fold, e, s);
    }
  }

  lemma PrefixMeans(fold: bool, e: string, s: string)
    ensures |s| <= |e| && Same(fold, e[..|s|], s) <==> StartsWith(fold, e, s)
  {
    if |s| <= |e| && Same(fold, e[..|s|], s) {
      assert Parts(e, "", e[..|s|], e[|s|..]);
    }
    forall head, rest | Parts(e, "", head, rest) && Same(fold, head, s)
      ensures e[..|s|] == head
    {
    }
  }

  lemma SuffixMeans(fold: bool, e: string, s: string)
    ensures |s| <= |e| && Same(fold, e[|e| - |s|..], s) <==> EndsWith(fold, e, s)
  {
    if |s| <= |e| && Same(fold, e[|e| - |s|..], s) {
      assert Parts(e, e[..|e| - |s|], e[|e| - |s|..], "");
    }
    forall rest, tail | Parts(e, rest, tail, "") && Same(fold, tail, s)
      ensures e[|e| - |s|..] == tail
    {
    }
  }

  lemma SubstringMeans(fold: bool, e: string, s: string)
    ensures (exists i, j | 0 <= i <= |e| && i <= j <= |e| && j - i == |s| :: Same(fold, e[i..j], s))
            <==> Contains(fold, e, s)
  {
    if i, j :| 0 <= i <= |e| && i <= j <= |e| && j - i == |s| && Same(fold, e[i..j], s) {
      assert Parts(e, e[..i], e[i..j], e[j..]);
    }
    if before, part, after :| Parts(e, before, part, after) && Same(fold, part, s) {
      assert e[|before|..|before| + |part|] == part;
    }
  }

  lemma DashMeans(fold: bool, e: string, s: string)
    ensures |s| < |e| && e[|s|] == '-' && Same(fold, e[..|s|], s) <==> StartsWithDash(fold, e, s)
  {
    if |s| < |e| && e[|s|] == '-' && Same(fold, e[..|s|], s) {
      assert Parts(e, e[..|s|], "-", e[|s| + 1..]);
    }
    forall head, rest | Parts(e, head, "-", rest) && Same(fold, head, s)
      ensures e[..|s|] == head && e[|s|] == '-'
    {
    }
  }

  /** A stretch without white space, between two of them or the ends. */
  predicate IsWordAt(e: string, i: nat, j: nat) {
    && i <= j <= |e|
    && (i == 0 || IsBlank(e[i - 1]))
    && (j == |e| || IsBlank(e[j]))
    && forall k | i <= k < j :: !IsBlank(e[k])
  }

  lemma {:induction false} WordsAreListed(e: string, start: nat, i: nat, j: nat)
    requires IsWordAt(e, i, j) && start <= i
    ensures e[i..j] in Words(e, start)
    decreases |e| - start
  {
    var k := FirstBlank(e, start);
    if i <= k {
      assert i == start && j == k;
    } else {
      WordsAreListed(e, k + 1, i, j);
    }
  }

  lemma {:induction false} ListedAreWords(e: string, start: nat, word: string) returns (i: nat, j: nat)
    requires start <= |e| && (start == 0 || IsBlank(e[start - 1])) && word in Words(e, start)
    ensures IsWordAt(e, i, j) && e[i..j] == word
    decreases |e| - start
  {
    var k := FirstBlank(e, start);
    ghost var first, rest := e[start..k], if k < |e| then Words(e, k + 1) else [];
    assert Words(e, start) == [first] + rest;
    if word == first {
      i, j := start, k;
    } else {
      assert word in rest;
      i, j := ListedAreWords(e, k + 1, word);
    }
  }

  ghost predicate WordMatches(cs: CaseSensitivity, e: string, s: string, i: nat, j: nat) {
    IsWordAt(e, i, j) && CaseEq(cs, e[i..j], s)
  }

  lemma IncludesWord(cs: CaseSensitivity, e: string, s: string)
    requires s != ""
    ensures EvalOperator(Includes, e, s, cs) <==> exists i: nat, j: nat :: WordMatches(cs, e, s, i, j)
  {
    if EvalOperator(Includes, e, s, cs) {
      var i: nat, j: nat :| i <= j <= |e| && CaseEq(cs, e[i..j], s) && IsWordAt(e, i, j);
      assert WordMatches(cs, e, s, i, j);
    }
  }

  lemma IncludesMeans(cs: CaseSensitivity, e: string, s: string)
    requires s != ""
    ensures EvalOperator(Includes, e, s, cs) <==> HasWord(cs.AsciiCaseInsensitive?, e, s)
  {
    var fold := cs.AsciiCaseInsensitive?;
    IncludesWord(cs, e, s);
    forall i: nat, j: nat | WordMatches(cs, e, s, i, j)
      ensures HasWord(fold, e, s)
    {
      WordsAreListed(e, 0, i, j);
      CaseEqIsSame(cs, e[i..j], s);
    }
    if word :| word in Words(e, 0) && Same(fold, word, s) {
      var i, j := ListedAreWords(e, 0, word);
      CaseEqIsSame(cs, word, s);
      assert WordMatches(cs, e, s, i, j);
    }
  }

  // ------------------------------------------------------------- components

  /** Does the comparison fold case?  A flag decides, or else HTML for its attributes. */
  predicate Folds(p: ParsedCaseSensitivity, isHtml: bool) {
    p == ExplicitInsensitive || (p == NoFlagInsensitiveIfHtml && isHtml)
  }

  ghost predicate AttributeAsks(d: ElementData, anyNs: bool, ns: Atom, name: Atom, op: AttrOperation) {
    exists a | a in d.attrs ::
      && a.name == name && (anyNs || a.ns == ns)
      && (op.WithValue? ==> OperatorAsks(op.operator, a.value, op.value, Folds(op.case_, d.isHtml)))
  }

  /** In an HTML document HTML elements and their attributes go by the lower-case name. */
  predicate IsNamed(d: ElementData, actual: Atom, name: Atom, lower: Atom) {
    actual == if d.isHtml then lower else name
  }

  ghost predicate LeafAsks(quirks: bool, x: Component, d: ElementData)
    requires IsLeaf(x)
  {
    match x
    case LocalName(name, lower) => IsNamed(d, d.localName, name, lower)
    case ID(id) => d.id.Some? && Same(quirks, d.id.value, id)
    case Class(name) => exists held | held in d.classes :: Same(quirks, held, name)
    case AttributeInNoNamespaceExists(name, lower) =>
      exists a | a in d.attrs :: a.ns == "" && IsNamed(d, a.name, name, lower)
    case AttributeInNoNamespace(name, op, value, cs) => AttributeAsks(d, false, "", name, WithValue(op, cs, value))
    case AttributeOther(n, name, lower, op) =>
      AttributeAsks(d, n == Some(AnyNamespace), if n.Some? && n.value.SpecificNamespace? then n.value.url else "",
                    if d.isHtml then lower else name, op)
    case ExplicitNoNamespace => d.ns == ""
    case DefaultNamespace(url) => d.ns == url
    case Namespace(_, url) => d.ns == url
    case Root => d.isRoot
    case Empty => d.isEmpty
    case NonTSPseudoClass(state) => state in d.states
    case Invalid => false
    case _ => true
  }

  lemma LeafMeans(quirks: bool, x: Component, d: ElementData)
    requires IsLeaf(x)
    ensures LeafMatches(quirks, x, d) <==> LeafAsks(quirks, x, d)
  {
    match x {
      case ID(id) =>
        if d.id.Some? {
          CaseEqIsSame(IdClassCase(quirks), d.id.value, id);
        }
      case Class(name) => ClassMeans(quirks, name, d);
      case AttributeInNoNamespaceExists(name, lower) =>
        assert forall i | 0 <= i < |d.attrs| :: d.attrs[i] in d.attrs;
      case AttributeInNoNamespace(name, op, value, cs) =>
        AttributeMeans(d, SpecificNamespace(""), name, WithValue(op, cs, value));
      case AttributeOther(n, name, lower, op) =>
        AttributeMeans(d, if n.Some? then n.value else SpecificNamespace(""), SelectName(d.isHtml, name, lower), op);
      case _ =>
    }
  }

  lemma ClassMeans(quirks: bool, name: Atom, d: ElementData)
    ensures HasClass(d, name, IdClassCase(quirks)) <==> exists held | held in d.classes :: Same(quirks, held, name)
  {
    forall i | 0 <= i < |d.classes|
      ensures d.classes[i] in d.classes
      ensures CaseEq(IdClassCase(quirks), d.classes[i], name) <==> Same(quirks, d.classes[i], name)
    {
      CaseEqIsSame(IdClassCase(quirks), d.classes[i], name);
    }
  }

  lemma AttributeMeans(d: ElementData, n: NamespaceConstraint, name: Atom, op: AttrOperation)
    ensures AttrMatches(d, n, name, op)
            <==> AttributeAsks(d, n.AnyNamespace?, if n.SpecificNamespace? then n.url else "", name, op)
  {
    forall i | 0 <= i < |d.attrs|
      ensures d.attrs[i] in d.attrs
      ensures OperationAllows(d, op, d.attrs[i].value)
              <==> op.WithValue? ==> OperatorAsks(op.operator, d.attrs[i].value, op.value, Folds(op.case_, d.isHtml))
    {
      if op.WithValue? {
        OperatorMeans(op.operator, d.attrs[i].value, op.value, UnconditionalCase(op.case_, d.isHtml));
      }
    }
  }

  /** `:link` and `:visited` match links: the ordinary pass takes all for unvisited, the
      visited pass for visited, and invalidation for both. */
  lemma LinksMean(visited: bool, handling: VisitedHandling, d: ElementData)
    ensures LinkMatches(handling, visited, d)
            <==> d.isLink && handling != if visited then AllLinksUnvisited else RelevantLinkVisited
  {
  }
}
