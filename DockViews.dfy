/** What the dock computes from the test tree and the result store without
    changing anything: the state of a test (a leaf's from its entry, a
    suite's as the least of its children's), its label, and the text shown
    for a selected test. */
module DockViews {
  import opened TestTrees
  import opened TestStates
  import opened Filters
  import opened Runners

  // ---------------------------------------------------------------- states

  /** The `switch` on a finished test's status; any status outside the five
      known ones shows as Inconclusive. */
  function StatusToState(status: TestStatus): TestState {
    match status
    case Failed => TestState.Failed
    case Passed => TestState.Passed
    case Skipped => TestState.Skipped
    case Warning => TestState.Warning
    case Inconclusive => TestState.Inconclusive
    case Unrecognized(_) => TestState.Inconclusive
  }

  /** The state of a test without children, read from its store entry. */
  function LeafState(store: Store, t: nat): TestState {
    if t !in store then NotRun
    else if store[t].None? then InProgress
    else StatusToState(store[t].value.status)
  }

  /** `GetTestState`: a test with children takes the least state of its
      children, a test without children the state of its own entry. */
  function State(tree: Tree, store: Store, t: nat): TestState
    requires WellFormed(tree) && t < |tree|
    decreases |tree| - t, 1, 0
  {
    if |Children(tree, t)| > 0 then FoldChildren(tree, store, t, |Children(tree, t)|)
    else LeafState(store, t)
  }

  /** The `worstState` fold after the first `k` children: it starts at Passed
      and takes Min with each child's state in turn. */
  function FoldChildren(tree: Tree, store: Store, t: nat, k: nat): TestState
    requires WellFormed(tree) && t < |tree| && k <= |Children(tree, t)|
    decreases |tree| - t, 0, k
  {
    if k == 0 then TestState.Passed
    else Min(FoldChildren(tree, store, t, k - 1), State(tree, store, Children(tree, t)[k - 1]))
  }

  /** After `k` children the fold is at most each of their states and, once
      `k > 0`, equal to one of them; before any child it is Passed. */
  lemma {:induction false} FoldIsLeastOfPrefix(tree: Tree, store: Store, t: nat, k: nat)
    requires WellFormed(tree) && t < |tree| && k <= |Children(tree, t)|
    ensures forall i | 0 <= i < k ::
              FoldChildren(tree, store, t, k).Value() <= State(tree, store, Children(tree, t)[i]).Value()
    ensures k == 0 ==> FoldChildren(tree, store, t, k) == TestState.Passed
    ensures k > 0 ==> exists i | 0 <= i < k ::
              FoldChildren(tree, store, t, k) == State(tree, store, Children(tree, t)[i])
  {
    if k > 0 {
      FoldIsLeastOfPrefix(tree, store, t, k - 1);
      var cs := Children(tree, t);
      var s := State(tree, store, cs[k - 1]);
      var prev := FoldChildren(tree, store, t, k - 1);
      assert FoldChildren(tree, store, t, k) == Min(prev, s);
      if k == 1 {
        PassedIsGreatest(s);
        assert FoldChildren(tree, store, t, k) == State(tree, store, cs[0]);
      } else {
        var j :| 0 <= j < k - 1 && prev == State(tree, store, cs[j]);
        if Min(prev, s) == prev {
          assert FoldChildren(tree, store, t, k) == State(tree, store, cs[j]);
        } else {
          assert FoldChildren(tree, store, t, k) == State(tree, store, cs[k - 1]);
        }
      }
    }
  }

  /** The three cases of a test without children. */
  lemma LeafStateCases(tree: Tree, store: Store, t: nat)
    requires WellFormed(tree) && t < |tree| && |Children(tree, t)| == 0
    ensures t !in store ==> State(tree, store, t) == NotRun
    ensures t in store && store[t].None? ==> State(tree, store, t) == InProgress
    ensures t in store && store[t].Some? ==>
              State(tree, store, t) == StatusToState(store[t].value.status)
  {
  }

  /** Finished statuses map to the state of the same name; others to
      Inconclusive. */
  lemma StatusMapping(code: int)
    ensures StatusToState(TestStatus.Failed) == TestState.Failed
    ensures StatusToState(TestStatus.Passed) == TestState.Passed
    ensures StatusToState(TestStatus.Skipped) == TestState.Skipped
    ensures StatusToState(TestStatus.Warning) == TestState.Warning
    ensures StatusToState(TestStatus.Inconclusive) == TestState.Inconclusive
    ensures StatusToState(Unrecognized(code)) == TestState.Inconclusive
  {
  }

  /** A test with children shows the least of its children's states, and it
      shows Passed exactly when every child does. */
  lemma SuiteStateIsLeastChild(tree: Tree, store: Store, t: nat)
    requires WellFormed(tree) && t < |tree| && |Children(tree, t)| > 0
    ensures forall c | c in Children(tree, t) :: State(tree, store, t).Value() <= State(tree, store, c).Value()
    ensures exists c | c in Children(tree, t) :: State(tree, store, t) == State(tree, store, c)
    ensures State(tree, store, t) == TestState.Passed <==> forall c | c in Children(tree, t) :: State(tree, store, c) == TestState.Passed
  {
    var cs := Children(tree, t);
    var s := State(tree, store, t);
    assert s == FoldChildren(tree, store, t, |cs|);
    FoldIsLeastOfPrefix(tree, store, t, |cs|);
    forall c | c in cs ensures s.Value() <= State(tree, store, c).Value() {
      var i :| 0 <= i < |cs| && cs[i] == c;
    }
    var i :| 0 <= i < |cs| && s == State(tree, store, cs[i]);
    assert cs[i] in cs;
  }

  /** Two stores agree on `x` and on everything below it. */
  ghost predicate AgreeBelow(tree: Tree, s1: Store, s2: Store, x: nat)
    requires WellFormed(tree)
  {
    forall k: nat | k < |tree| && IsDescendantOf(tree, x, k) ::
      (k in s1 <==> k in s2) && (k in s1 ==> s1[k] == s2[k])
  }

  /** A test's state depends only on the entries of the test and its
      descendants. */
  lemma {:induction false} StateLocal(tree: Tree, s1: Store, s2: Store, x: nat)
    requires WellFormed(tree) && x < |tree|
    requires AgreeBelow(tree, s1, s2, x)
    ensures State(tree, s1, x) == State(tree, s2, x)
    decreases |tree| - x, 1, 0
  {
    if |Children(tree, x)| > 0 {
      FoldLocal(tree, s1, s2, x, |Children(tree, x)|);
    } else {
      assert IsDescendantOf(tree, x, x);
    }
  }

  lemma {:induction false} FoldLocal(tree: Tree, s1: Store, s2: Store, x: nat, k: nat)
    requires WellFormed(tree) && x < |tree| && k <= |Children(tree, x)|
    requires AgreeBelow(tree, s1, s2, x)
    ensures FoldChildren(tree, s1, x, k) == FoldChildren(tree, s2, x, k)
    decreases |tree| - x, 0, k
  {
    if k > 0 {
      FoldLocal(tree, s1, s2, x, k - 1);
      var c := Children(tree, x)[k - 1];
      forall y: nat | y < |tree| && IsDescendantOf(tree, c, y)
        ensures IsDescendantOf(tree, x, y)
      {
        DescendantOfChild(tree, x, c, y);
      }
      StateLocal(tree, s1, s2, c);
    }
  }

  /** A test with children never looks at its own entry. */
  lemma SuiteIgnoresOwnEntry(tree: Tree, store: Store, t: nat, v: Option<TestResult>)
    requires WellFormed(tree) && t < |tree| && |Children(tree, t)| > 0
    ensures State(tree, store[t := v], t) == State(tree, store, t)
    ensures State(tree, store - {t}, t) == State(tree, store, t)
  {
    var cs := Children(tree, t);
    forall i | 0 <= i < |cs| ensures State(tree, store[t := v], cs[i]) == State(tree, store, cs[i]) {
      forall k: nat | k < |tree| && IsDescendantOf(tree, cs[i], k) ensures k != t {
        DescendantIdBound(tree, cs[i], k);
      }
      StateLocal(tree, store[t := v], store, cs[i]);
    }
    forall i | 0 <= i < |cs| ensures State(tree, store - {t}, cs[i]) == State(tree, store, cs[i]) {
      forall k: nat | k < |tree| && IsDescendantOf(tree, cs[i], k) ensures k != t {
        DescendantIdBound(tree, cs[i], k);
      }
      StateLocal(tree, store - {t}, store, cs[i]);
    }
    FoldUnderEqualChildren(tree, store[t := v], store, t, |cs|);
    FoldUnderEqualChildren(tree, store - {t}, store, t, |cs|);
  }

  /** The fold over children whose states agree gives the same state. */
  lemma {:induction false} FoldUnderEqualChildren(tree: Tree, s1: Store, s2: Store, t: nat, k: nat)
    requires WellFormed(tree) && t < |tree| && k <= |Children(tree, t)|
    requires forall i | 0 <= i < |Children(tree, t)| ::
               State(tree, s1, Children(tree, t)[i]) == State(tree, s2, Children(tree, t)[i])
    ensures FoldChildren(tree, s1, t, k) == FoldChildren(tree, s2, t, k)
  {
    if k > 0 {
      FoldUnderEqualChildren(tree, s1, s2, t, k - 1);
      var cs := Children(tree, t);
      assert State(tree, s1, cs[k - 1]) == State(tree, s2, cs[k - 1]);
    }
  }

  /** A test's state is at most the state of any of its descendants. */
  lemma {:induction false} StateBoundedByDescendants(tree: Tree, store: Store, t: nat, x: nat)
    requires WellFormed(tree) && t < |tree| && x < |tree|
    requires IsDescendantOf(tree, t, x)
    ensures State(tree, store, t).Value() <= State(tree, store, x).Value()
    decreases Depth(tree, x)
  {
    if x != t {
      var p := Parent(tree, x).value;
      StateBoundedByDescendants(tree, store, t, p);
      SuiteStateIsLeastChild(tree, store, p);
    }
  }

  /** One descendant in progress makes every ancestor show InProgress, even
      when another descendant failed. */
  lemma InProgressDominates(tree: Tree, store: Store, t: nat, x: nat)
    requires WellFormed(tree) && t < |tree| && x < |tree|
    requires IsDescendantOf(tree, t, x) && State(tree, store, x) == InProgress
    ensures State(tree, store, t) == InProgress
  {
    StateBoundedByDescendants(tree, store, t, x);
  }

  /** A test's state is the state of one of the tests without children below
      it (or of itself when it has none). */
  lemma {:induction false} StateComesFromLeaf(tree: Tree, store: Store, t: nat) returns (leaf: nat)
    requires WellFormed(tree) && t < |tree|
    ensures leaf < |tree| && IsDescendantOf(tree, t, leaf) && |Children(tree, leaf)| == 0
    ensures State(tree, store, t) == LeafState(store, leaf)
    decreases |tree| - t
  {
    var cs := Children(tree, t);
    if |cs| == 0 {
      leaf := t;
    } else {
      assert State(tree, store, t) == FoldChildren(tree, store, t, |cs|);
      FoldIsLeastOfPrefix(tree, store, t, |cs|);
      var i :| 0 <= i < |cs| && State(tree, store, t) == State(tree, store, cs[i]);
      leaf := StateComesFromLeaf(tree, store, cs[i]);
      DescendantOfChild(tree, t, cs[i], leaf);
    }
  }

  /** The aggregated state is the least state among the tests without
      children below `t`. */
  lemma StateIsLeastLeaf(tree: Tree, store: Store, t: nat, x: nat)
    requires WellFormed(tree) && t < |tree| && x < |tree|
    requires IsDescendantOf(tree, t, x) && |Children(tree, x)| == 0
    ensures State(tree, store, t).Value() <= LeafState(store, x).Value()
  {
    StateBoundedByDescendants(tree, store, t, x);
  }

  // ---------------------------------------------------------------- labels

  predicate IsDigit(c: char) {
    '0' as int <= c as int <= '9' as int
  }

  /** `int.ToString()` of a non-negative count. */
  function Decimal(n: nat): (s: string)
    ensures |s| > 0
    ensures forall i | 0 <= i < |s| :: IsDigit(s[i])
    ensures n > 0 ==> s[0] != '0'
  {
    if n < 10 then [('0' as int + n) as char]
    else Decimal(n / 10) + [('0' as int + n % 10) as char]
  }

  /** Reads a run of digits back as a number. */
  function ParseDecimal(s: string): nat
    requires forall i | 0 <= i < |s| :: IsDigit(s[i])
  {
    if |s| == 0 then 0
    else
      assert IsDigit(s[|s| - 1]);
      10 * ParseDecimal(s[..|s| - 1]) + (s[|s| - 1] as int - '0' as int)
  }

  lemma {:induction false} DecimalRoundTrip(n: nat)
    ensures ParseDecimal(Decimal(n)) == n
  {
    if n >= 10 {
      DecimalRoundTrip(n / 10);
      var s := Decimal(n);
      assert s[..|s| - 1] == Decimal(n / 10);
    }
  }

  lemma DecimalInjective(a: nat, b: nat)
    requires Decimal(a) == Decimal(b)
    ensures a == b
  {
    DecimalRoundTrip(a);
    DecimalRoundTrip(b);
  }

  /** `GetTestLabel`. */
  function Label(tree: Tree, store: Store, t: nat): string
    requires t < |tree|
  {
    var node := tree[t];
    if !node.isSuite then node.name
    else if t !in store || store[t].None? then
      node.name + " (" + Decimal(node.testCaseCount) + " found)"
    else
      node.name + " (" + Decimal(store[t].value.passCount) + " / " + Decimal(node.testCaseCount) + " passing)"
  }

  /** The three forms of a label. */
  lemma LabelForms(tree: Tree, store: Store, t: nat)
    requires t < |tree|
    ensures !tree[t].isSuite ==> Label(tree, store, t) == tree[t].name
    ensures tree[t].isSuite && (t !in store || store[t].None?) ==>
              Label(tree, store, t) == tree[t].name + " (" + Decimal(tree[t].testCaseCount) + " found)"
    ensures tree[t].isSuite && t in store && store[t].Some? ==>
              Label(tree, store, t) == tree[t].name + " (" + Decimal(store[t].value.passCount) + " / "
                                       + Decimal(tree[t].testCaseCount) + " passing)"
  {
  }

  predicate EndsWith(s: string, suffix: string) {
    |suffix| <= |s| && s[|s| - |suffix|..] == suffix
  }

  /** A suite's label tells whether it has a result: it ends in " found)"
      exactly when it has none (or is in progress). */
  lemma SuiteLabelShowsResult(tree: Tree, store: Store, t: nat)
    requires t < |tree| && tree[t].isSuite
    ensures EndsWith(Label(tree, store, t), " found)") <==> (t !in store || store[t].None?)
  {
    var node := tree[t];
    var l := Label(tree, store, t);
    if t !in store || store[t].None? {
      var front := node.name + " (" + Decimal(node.testCaseCount);
      assert l == front + " found)";
      assert l[|l| - 7..] == " found)";
    } else {
      var front := node.name + " (" + Decimal(store[t].value.passCount) + " / " + Decimal(node.testCaseCount);
      assert l == front + " passing)";
      assert l[|l| - 7] == 'a';
    }
  }

  /** Cutting a known prefix and suffix off a string gives back the middle. */
  lemma StripAround(a: string, x: string, y: string, b: string)
    requires a + x + b == a + y + b
    ensures x == y
  {
    var s := a + x + b;
    assert x == s[|a|..|s| - |b|];
    assert y == s[|a|..|s| - |b|];
  }

  lemma SeparatorAt(x: string, sep: string, y: string)
    ensures |sep| > 0 ==> (x + sep + y)[|x|] == sep[0]
  {
  }

  lemma PrefixAt(x: string, sep: string, y: string, i: int)
    ensures 0 <= i < |x| ==> (x + sep + y)[i] == x[i]
  {
  }

  /** Two digit runs that are each followed by `sep`, whose first character
      is not a digit, split the same way. */
  lemma DigitsSplit(x1: string, x2: string, sep: string, y1: string, y2: string)
    requires forall i | 0 <= i < |x1| :: IsDigit(x1[i])
    requires forall i | 0 <= i < |x2| :: IsDigit(x2[i])
    requires |sep| > 0 && !IsDigit(sep[0])
    requires x1 + sep + y1 == x2 + sep + y2
    ensures x1 == x2 && y1 == y2
  {
    var s := x1 + sep + y1;
    var s2 := x2 + sep + y2;
    if |x1| < |x2| {
      SeparatorAt(x1, sep, y1);
      PrefixAt(x2, sep, y2, |x1|);
      assert false;
    } else if |x2| < |x1| {
      SeparatorAt(x2, sep, y2);
      PrefixAt(x1, sep, y1, |x2|);
      assert false;
    }
    assert x1 == s[..|x1|];
    assert x2 == s2[..|x2|];
    assert y1 == s[|x1| + |sep|..];
    assert y2 == (x2 + sep + y2)[|x2| + |sep|..];
  }

  /** A label determines the counts it shows: two suites of the same name
      with equal labels have the same kind of entry and the same counts. */
  lemma LabelDeterminesCounts(name: string, t1: nat, t2: nat, tree1: Tree, tree2: Tree, s1: Store, s2: Store)
    requires t1 < |tree1| && t2 < |tree2|
    requires tree1[t1].isSuite && tree2[t2].isSuite
    requires tree1[t1].name == name && tree2[t2].name == name
    requires Label(tree1, s1, t1) == Label(tree2, s2, t2)
    ensures (t1 !in s1 || s1[t1].None?) <==> (t2 !in s2 || s2[t2].None?)
    ensures tree1[t1].testCaseCount == tree2[t2].testCaseCount
    ensures t1 in s1 && s1[t1].Some? && t2 in s2 && s2[t2].Some? ==>
              s1[t1].value.passCount == s2[t2].value.passCount
  {
    SuiteLabelShowsResult(tree1, s1, t1);
    SuiteLabelShowsResult(tree2, s2, t2);
    LabelForms(tree1, s1, t1);
    LabelForms(tree2, s2, t2);
    var c1, c2 := tree1[t1].testCaseCount, tree2[t2].testCaseCount;
    if t1 !in s1 || s1[t1].None? {
      FoundLabelCounts(name, c1, c2);
    } else {
      PassingLabelCounts(name, s1[t1].value.passCount, c1, s2[t2].value.passCount, c2);
    }
  }

  lemma FoundLabelCounts(name: string, c1: nat, c2: nat)
    requires name + " (" + Decimal(c1) + " found)" == name + " (" + Decimal(c2) + " found)"
    ensures c1 == c2
  {
    StripAround(name + " (", Decimal(c1), Decimal(c2), " found)");
    DecimalInjective(c1, c2);
  }

  lemma PassingLabelCounts(name: string, p1: nat, c1: nat, p2: nat, c2: nat)
    requires name + " (" + Decimal(p1) + " / " + Decimal(c1) + " passing)"
          == name + " (" + Decimal(p2) + " / " + Decimal(c2) + " passing)"
    ensures p1 == p2 && c1 == c2
  {
    StripMiddle(name + " (", Decimal(p1), " / ", Decimal(c1), " passing)");
    StripMiddle(name + " (", Decimal(p2), " / ", Decimal(c2), " passing)");
    DigitsSplit(Decimal(p1), Decimal(p2), " / ", Decimal(c1), Decimal(c2));
    DecimalInjective(p1, p2);
    DecimalInjective(c1, c2);
  }

  /** The middle of `a + x + sep + y + b`, with `a` and `b` cut off. */
  lemma StripMiddle(a: string, x: string, sep: string, y: string, b: string)
    ensures var s := a + x + sep + y + b;
            |a| + |b| <= |s| && s[|a|..|s| - |b|] == x + sep + y
  {
    var s := a + x + sep + y + b;
    var m := x + sep + y;
    assert s == a + m + b;
    assert s[|a|..|s| - |b|] == m;
  }

  // ---------------------------------------------------------------- output text

  /** `Environment.NewLine`, which differs by platform. */
  datatype NewLine = LF | CRLF {
    function Text(): (s: string)
      ensures |s| > 0 && s[|s| - 1] == '\n'
    {
      match this
      case LF => "\n"
      case CRLF => "\r\n"
    }
  }

  /** `char.IsWhiteSpace`: the Unicode space, line and paragraph separators,
      the controls U+0009 to U+000D, and U+0085. */
  predicate IsWhiteSpace(c: char) {
    || c == ' ' || c == '\U{00A0}' || c == '\U{1680}' || ('\U{2000}' <= c <= '\U{200A}')
    || c == '\U{202F}' || c == '\U{205F}' || c == '\U{3000}'
    || c == '\U{2028}' || c == '\U{2029}'
    || ('\U{0009}' <= c <= '\U{000D}') || c == '\U{0085}'
  }

  /** `string.IsNullOrWhiteSpace`. */
  predicate IsNullOrWhiteSpace(s: Option<string>) {
    s.None? || forall i | 0 <= i < |s.value| :: IsWhiteSpace(s.value[i])
  }

  /** `PrintIfNotEmpty`: the line appended for an optional string. */
  function LineIfNotEmpty(s: Option<string>, nl: NewLine): string {
    if IsNullOrWhiteSpace(s) then "" else s.value + nl.Text()
  }

  /** The text `DisplayTestOutput` puts in the output label. */
  function OutputText(store: Store, t: nat, nl: NewLine): string {
    if t !in store then "Test not run."
    else if store[t].None? then "Test in progress..."
    else
      var r := store[t].value;
      if r.status == TestStatus.Passed then "Test passed."
      else
        r.name + nl.Text() + LineIfNotEmpty(r.message, nl) + LineIfNotEmpty(r.output, nl)
        + (if r.status != TestStatus.Passed then LineIfNotEmpty(r.stackTrace, nl) else "")
  }

  /** The three fixed texts. */
  lemma OutputTextFixedCases(store: Store, t: nat, nl: NewLine)
    ensures t !in store ==> OutputText(store, t, nl) == "Test not run."
    ensures t in store && store[t].None? ==> OutputText(store, t, nl) == "Test in progress..."
    ensures t in store && store[t].Some? && store[t].value.status == TestStatus.Passed ==>
              OutputText(store, t, nl) == "Test passed."
  {
  }

  /** The report of a test that did not pass starts with the result's name
      on a line of its own and ends with a line break. */
  lemma FailureReportShape(store: Store, t: nat, nl: NewLine)
    requires t in store && store[t].Some? && store[t].value.status != TestStatus.Passed
    ensures var out := OutputText(store, t, nl);
            && |out| > 0 && out[|out| - 1] == '\n'
            && store[t].value.name + nl.Text() <= out
  {
    var r := store[t].value;
    var out := OutputText(store, t, nl);
    var head := r.name + nl.Text();
    EndsWithNewLine(r.message, r.output, r.stackTrace, head, nl);
  }

  /** So the report of a test that did not pass can never be taken for one
      of the three fixed texts. */
  lemma FailureReportIsNotFixed(store: Store, t: nat, nl: NewLine)
    requires t in store && store[t].Some? && store[t].value.status != TestStatus.Passed
    ensures OutputText(store, t, nl) != "Test not run."
    ensures OutputText(store, t, nl) != "Test in progress..."
    ensures OutputText(store, t, nl) != "Test passed."
  {
    FailureReportShape(store, t, nl);
    var out := OutputText(store, t, nl);
    LastCharsDiffer(out, "Test not run.");
    LastCharsDiffer(out, "Test in progress...");
    LastCharsDiffer(out, "Test passed.");
  }

  lemma LastCharsDiffer(a: string, b: string)
    requires |a| > 0 && |b| > 0 && a[|a| - 1] != b[|b| - 1]
    ensures a != b
  {
  }

  lemma EndsWithNewLine(a: Option<string>, b: Option<string>, c: Option<string>, head: string, nl: NewLine)
    requires |head| > 0 && head[|head| - 1] == '\n'
    ensures var s := head + LineIfNotEmpty(a, nl) + LineIfNotEmpty(b, nl) + LineIfNotEmpty(c, nl);
            s[|s| - 1] == '\n'
  {
    var s1 := head + LineIfNotEmpty(a, nl);
    assert s1[|s1| - 1] == '\n';
    var s2 := s1 + LineIfNotEmpty(b, nl);
    assert s2[|s2| - 1] == '\n';
    var s3 := s2 + LineIfNotEmpty(c, nl);
    assert s3[|s3| - 1] == '\n';
  }

  /** Blank message, output and stack trace leave only the name line; a
      non-blank stack trace is always the last line. */
  lemma FailureReportParts(store: Store, t: nat, nl: NewLine)
    requires t in store && store[t].Some? && store[t].value.status != TestStatus.Passed
    ensures var r := store[t].value;
            (IsNullOrWhiteSpace(r.message) && IsNullOrWhiteSpace(r.output) && IsNullOrWhiteSpace(r.stackTrace))
              ==> OutputText(store, t, nl) == r.name + nl.Text()
    ensures var r := store[t].value;
            !IsNullOrWhiteSpace(r.stackTrace) ==>
              EndsWith(OutputText(store, t, nl), r.stackTrace.value + nl.Text())
  {
    var r := store[t].value;
    var out := OutputText(store, t, nl);
    if !IsNullOrWhiteSpace(r.stackTrace) {
      var front := r.name + nl.Text() + LineIfNotEmpty(r.message, nl) + LineIfNotEmpty(r.output, nl);
      var last := r.stackTrace.value + nl.Text();
      assert out == front + last;
      assert out[|out| - |last|..] == last;
    }
  }
}
