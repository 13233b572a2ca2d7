/** Subject selection: the text a subject is shown as, the regular
    expression that reads it back, and the attendance-sheet file name
    derived from it. */
module Selection {
  import opened Wrappers
  import opened Text
  import opened Records

  /** How a subject appears among the selectable options:
      Subject(Branch-Semester). */
  function Display(g: Subject): (text: string)
  {
    g.code + "(" + g.branch + "-" + g.semester + ")"
  }

  /** The selectable options, one per subject row, in store order. */
  function SpinnerValues(subjects: seq<Subject>): (values: seq<string>)
    ensures |values| == |subjects|
  {
    seq(|subjects|, k requires 0 <= k < |subjects| => Display(subjects[k]))
  }

  /** The file holding a subject's attendance sheet:
      Subject-Branch-Semester.csv. */
  function SheetFileName(g: Subject): (name: string)
  {
    g.code + "-" + g.branch + "-" + g.semester + ".csv"
  }

  /** The three fields passed through str.lower(). */
  function LowerAll(g: Subject): (r: Subject)
  {
    Subject(Lower(g.code), Lower(g.branch), Lower(g.semester))
  }

  /** The pattern (\w+)\((\w+)-(\d+)\) matches at the start of s with the
      groups g (re.match anchors the start only: anything may follow). */
  predicate MatchesPattern(s: string, g: Subject)
  {
    IsWord(g.code) && IsWord(g.branch) && IsDigits(g.semester) && Display(g) <= s
  }

  /** The groups the pattern captures at the start of s. Each group is the
      longest run of its class, since the character after it lies outside
      the class. */
  function MatchGroups(s: string): (r: Option<Subject>)
    ensures r.Some? ==> MatchesPattern(s, r.value)
  {
    var a := Run(s, IsWordChar);
    if a == 0 || a == |s| || s[a] != '(' then None
    else
      var t := s[a + 1..];
      var b := Run(t, IsWordChar);
      if b == 0 || b == |t| || t[b] != '-' then None
      else
        var u := t[b + 1..];
        var c := Run(u, IsDigitChar);
        if c == 0 || c == |u| || u[c] != ')' then None
        else
          var g := Subject(s[..a], t[..b], u[..c]);
          MatchedShape(s, a, b, c);
          Some(g)
  }

  /** The text matched with the three groups is a prefix of s. */
  lemma MatchedShape(s: string, a: nat, b: nat, c: nat)
    requires a < |s| && b < |s[a + 1..]| && c < |s[a + 1..][b + 1..]|
    ensures var t := s[a + 1..]; var u := t[b + 1..];
            s[..a] + [s[a]] + t[..b] + [t[b]] + u[..c] + [u[c]] <= s
  {
    var t := s[a + 1..];
    var u := t[b + 1..];
    var w := s[..a] + [s[a]] + t[..b] + [t[b]] + u[..c] + [u[c]];
    assert |w| == a + b + c + 3;
    forall k | 0 <= k < |w| ensures w[k] == s[k] {
      if k < a {
      } else if k == a {
      } else if k < a + 1 + b {
        assert w[k] == t[k - a - 1];
      } else if k == a + 1 + b {
        assert w[k] == t[b];
      } else if k < a + b + 2 + c {
        assert w[k] == u[k - a - b - 2];
      } else {
        assert w[k] == u[c];
      }
    }
  }

  /** Peeling one group: if s starts with x, a separator outside the class,
      then rest, the run of the class at the start of s is exactly x. */
  lemma PeelGroup(s: string, x: string, sep: char, rest: string, p: char -> bool)
    requires x + [sep] + rest <= s
    requires forall k :: 0 <= k < |x| ==> p(x[k])
    requires !p(sep)
    ensures |x| < |s| && s[|x|] == sep && Run(s, p) == |x| && s[..|x|] == x
    ensures rest <= s[|x| + 1..]
  {
    var w := x + [sep] + rest;
    assert s[..|w|] == w;
    assert s[..|x|] == w[..|x|] == x;
    assert s[|x|] == w[|x|] == sep;
    forall k | 0 <= k < |x| ensures p(s[k]) {
      assert s[k] == s[..|x|][k];
    }
    RunAt(s, p, |x|);
    assert s[|x| + 1..|w|] == w[|x| + 1..] == rest;
  }

  /** Whenever the pattern matches with groups g, MatchGroups finds exactly
      those groups: the match is unique. */
  lemma MatchGroupsComplete(s: string, g: Subject)
    requires MatchesPattern(s, g)
    ensures MatchGroups(s) == Some(g)
  {
    var tail2 := g.semester + [')'];
    var tail1 := g.branch + ['-'] + tail2;
    assert Display(g) == g.code + ['('] + tail1;
    PeelGroup(s, g.code, '(', tail1, IsWordChar);
    var t := s[|g.code| + 1..];
    PeelGroup(t, g.branch, '-', tail2, IsWordChar);
    var u := t[|g.branch| + 1..];
    PeelGroup(u, g.semester, ')', [], IsDigitChar);
  }

  /** The selection parse: match the pattern and lower-case all three
      groups; None is the ValueError raised for a malformed selection. */
  function ParseSelection(s: string): (r: Option<Subject>)
  {
    match MatchGroups(s)
    case None => None
    case Some(g) => Some(LowerAll(g))
  }

  /** The parse succeeds exactly when the pattern matches at the start of
      s, and then yields the lower-cased groups of that match. */
  lemma ParseSelectionSpec(s: string)
    ensures ParseSelection(s).Some? <==> exists g :: MatchesPattern(s, g)
    ensures forall g :: MatchesPattern(s, g) ==> ParseSelection(s) == Some(LowerAll(g))
  {
    forall g | MatchesPattern(s, g) ensures ParseSelection(s) == Some(LowerAll(g)) {
      MatchGroupsComplete(s, g);
    }
  }

  /** The sheet file name a selection leads to: the groups are lower-cased
      before the name is formed. */
  function SelectionFileName(s: string): (r: Option<string>)
  {
    match ParseSelection(s)
    case None => None
    case Some(g) => Some(SheetFileName(g))
  }

  /** Round trip: a subject whose Subject and Branch are \w runs and whose
      Semester is a \d run is read back from its display text as the
      lower-cased triple, and leads to the lower-cased sheet name. */
  lemma SelectionRoundTrip(g: Subject)
    requires IsWord(g.code) && IsWord(g.branch) && IsDigits(g.semester)
    ensures ParseSelection(Display(g)) == Some(Subject(Lower(g.code), Lower(g.branch), g.semester))
    ensures SelectionFileName(Display(g)) == Some(Lower(g.code) + "-" + Lower(g.branch) + "-" + g.semester + ".csv")
  {
    MatchGroupsComplete(Display(g), g);
    LowerDigits(g.semester);
  }

  /** Every option offered for a well-formed subject row resolves to that
      row's lower-cased triple. */
  lemma SpinnerRoundTrip(subjects: seq<Subject>, k: nat)
    requires k < |subjects|
    requires IsWord(subjects[k].code) && IsWord(subjects[k].branch) && IsDigits(subjects[k].semester)
    ensures ParseSelection(SpinnerValues(subjects)[k]) == Some(LowerAll(subjects[k]))
  {
    SelectionRoundTrip(subjects[k]);
    LowerDigits(subjects[k].semester);
  }

  /** Equal concatenations with equally long first parts have equal parts. */
  lemma CancelPrefix(x: string, y: string, v: string, w: string)
    requires |x| == |y| && x + v == y + w
    ensures x == y && v == w
  {
    assert x == (x + v)[..|x|] && y == (y + w)[..|y|];
    assert v == (x + v)[|x|..] && w == (y + w)[|y|..];
  }

  /** File names built from equally long parts are equal exactly when the
      parts are. */
  lemma FileNameParts(x: string, x': string, y: string, y': string, semester: string)
    requires |x| == |x'| && |y| == |y'|
    ensures SheetFileName(Subject(x, y, semester)) == SheetFileName(Subject(x', y', semester)) <==> x == x' && y == y'
  {
    var tail := "-" + semester + ".csv";
    assert SheetFileName(Subject(x, y, semester)) == x + ("-" + (y + tail));
    assert SheetFileName(Subject(x', y', semester)) == x' + ("-" + (y' + tail));
    if SheetFileName(Subject(x, y, semester)) == SheetFileName(Subject(x', y', semester)) {
      CancelPrefix(x, x', "-" + (y + tail), "-" + (y' + tail));
      CancelPrefix("-", "-", y + tail, y' + tail);
      CancelPrefix(y, y', tail, tail);
    }
  }

  /** The sheet created for a subject is named with the fields' own case,
      but selecting the subject lower-cases them: selection finds the
      created sheet's name exactly when Subject and Branch hold no
      upper-case letter. */
  lemma SelectionMatchesCreationName(g: Subject)
    requires IsWord(g.code) && IsWord(g.branch) && IsDigits(g.semester)
    ensures SelectionFileName(Display(g)) == Some(SheetFileName(g)) <==> Lower(g.code) == g.code && Lower(g.branch) == g.branch
  {
    SelectionRoundTrip(g);
    FileNameParts(Lower(g.code), g.code, Lower(g.branch), g.branch, g.semester);
  }

  /** Sheet file names do not identify subjects: two different subjects can
      share one file, so creating the second replaces the first's sheet. */
  lemma SheetFileNameCollision()
    ensures Subject("a-b", "c", "1") != Subject("a", "b-c", "1")
    ensures SheetFileName(Subject("a-b", "c", "1")) == SheetFileName(Subject("a", "b-c", "1"))
  {
  }
}
