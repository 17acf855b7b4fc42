/**
 * The computations inside the browser script: the password-strength meter, the
 * per-field validation rules, the word counter of the post editor, the search-box
 * guards and the checks on a chosen image.  DOM updates are not modelled; each
 * function returns what the script would display or decide.
 */
module Script {
  import opened Common
  import opened Text

  // ---------------------------------------------------------------- character classes

  /** Regular-expression `[a-z]`. */
  predicate IsLowerLetter(c: char) { 'a' <= c <= 'z' }
  /** Regular-expression `[A-Z]`. */
  predicate IsUpperLetter(c: char) { 'A' <= c <= 'Z' }
  /** Regular-expression `\d` (no `u` flag): the ASCII digits. */
  predicate IsDigit(c: char) { '0' <= c <= '9' }
  /** Regular-expression `\w` (no `u` flag). */
  predicate IsWordChar(c: char) { IsLowerLetter(c) || IsUpperLetter(c) || IsDigit(c) || c == '_' }

  // ---------------------------------------------------------------- password strength

  /** The five things `checkPasswordStrength` looks for, in the order it tests them. */
  datatype Criterion = MinLength | Lowercase | Uppercase | Digit | Special

  const Criteria: seq<Criterion> := [MinLength, Lowercase, Uppercase, Digit, Special]

  predicate HasLower(p: string) { exists i :: 0 <= i < |p| && IsLowerLetter(p[i]) }
  predicate HasUpper(p: string) { exists i :: 0 <= i < |p| && IsUpperLetter(p[i]) }
  predicate HasDigit(p: string) { exists i :: 0 <= i < |p| && IsDigit(p[i]) }
  /** Regular-expression `[^\w\s]`: neither a word character nor whitespace. */
  predicate HasSpecial(p: string) { exists i :: 0 <= i < |p| && !IsWordChar(p[i]) && !IsJsSpace(p[i]) }

  predicate Meets(password: string, c: Criterion) {
    match c
    case MinLength => |password| >= 8
    case Lowercase => HasLower(password)
    case Uppercase => HasUpper(password)
    case Digit => HasDigit(password)
    case Special => HasSpecial(password)
  }

  /** The text pushed onto `feedback` when a criterion is not met. */
  function Hint(c: Criterion): string {
    match c
    case MinLength => "At least 8 characters"
    case Lowercase => "Lowercase letter"
    case Uppercase => "Uppercase letter"
    case Digit => "Number"
    case Special => "Special character"
  }

  /** The point a criterion adds to the score. */
  function Point(password: string, c: Criterion): nat {
    if Meets(password, c) then 1 else 0
  }

  /** The feedback a criterion adds: its hint when it is missed. */
  function Missed(password: string, c: Criterion): seq<string> {
    if Meets(password, c) then [] else [Hint(c)]
  }

  /** How many of `cs` the password meets. */
  function MetCount(password: string, cs: seq<Criterion>): nat {
    if cs == [] then 0 else Point(password, cs[0]) + MetCount(password, cs[1..])
  }

  /** The hints of the criteria in `cs` the password misses, in the order of `cs`. */
  function MissingHints(password: string, cs: seq<Criterion>): seq<string> {
    if cs == [] then [] else Missed(password, cs[0]) + MissingHints(password, cs[1..])
  }

  /** One test of `checkPasswordStrength`: a point when the criterion is met, its hint otherwise. */
  method Tally(password: string, c: Criterion, strength: nat, feedback: seq<string>)
    returns (strength': nat, feedback': seq<string>)
    ensures strength' == strength + Point(password, c)
    ensures feedback' == feedback + Missed(password, c)
  {
    if Meets(password, c) {
      strength', feedback' := strength + 1, feedback;
    } else {
      strength', feedback' := strength, feedback + [Hint(c)];
    }
  }

  /**
   * The scoring part of `checkPasswordStrength`: one point per criterion met, and a
   * feedback line for each one missed, tested in the order of `Criteria`.
   */
  method CheckPasswordStrength(password: string) returns (strength: nat, feedback: seq<string>)
    ensures strength == MetCount(password, Criteria)
    ensures feedback == MissingHints(password, Criteria)
  {
    strength, feedback := Tally(password, MinLength, 0, []);
    strength, feedback := Tally(password, Lowercase, strength, feedback);
    strength, feedback := Tally(password, Uppercase, strength, feedback);
    strength, feedback := Tally(password, Digit, strength, feedback);
    strength, feedback := Tally(password, Special, strength, feedback);
    CriteriaInOrder(password);
    assert [] + Missed(password, MinLength) == Missed(password, MinLength);
  }

  /** Scoring the five criteria one after the other. */
  lemma CriteriaInOrder(password: string)
    ensures MetCount(password, Criteria) == Point(password, MinLength) + Point(password, Lowercase)
      + Point(password, Uppercase) + Point(password, Digit) + Point(password, Special)
    ensures MissingHints(password, Criteria) == Missed(password, MinLength) + Missed(password, Lowercase)
      + Missed(password, Uppercase) + Missed(password, Digit) + Missed(password, Special)
  {
    ScoreSnoc(password, [MinLength], Lowercase);
    assert [MinLength] + [Lowercase] == [MinLength, Lowercase];
    ScoreSnoc(password, [MinLength, Lowercase], Uppercase);
    assert [MinLength, Lowercase] + [Uppercase] == [MinLength, Lowercase, Uppercase];
    ScoreSnoc(password, [MinLength, Lowercase, Uppercase], Digit);
    assert [MinLength, Lowercase, Uppercase] + [Digit] == [MinLength, Lowercase, Uppercase, Digit];
    ScoreSnoc(password, [MinLength, Lowercase, Uppercase, Digit], Special);
    assert [MinLength, Lowercase, Uppercase, Digit] + [Special] == Criteria;
    assert MissingHints(password, [MinLength]) == Missed(password, MinLength) + [];
  }

  /** Scoring one more criterion extends the count and the hints of the ones before it. */
  lemma {:induction false} ScoreSnoc(password: string, cs: seq<Criterion>, c: Criterion)
    ensures MetCount(password, cs + [c]) == MetCount(password, cs) + Point(password, c)
    ensures MissingHints(password, cs + [c]) == MissingHints(password, cs) + Missed(password, c)
  {
    if cs == [] {
      assert [c][1..] == [];
    } else {
      assert (cs + [c])[1..] == cs[1..] + [c];
      ScoreSnoc(password, cs[1..], c);
    }
  }

  /** Every criterion is either scored or reported, never both. */
  lemma {:induction false} ScorePlusFeedback(password: string, cs: seq<Criterion>)
    ensures MetCount(password, cs) + |MissingHints(password, cs)| == |cs|
  {
    if cs != [] {
      ScorePlusFeedback(password, cs[1..]);
    }
  }

  /** The feedback names a criterion of `cs` exactly when the password misses it. */
  lemma {:induction false} FeedbackNamesMissed(password: string, cs: seq<Criterion>, c: Criterion)
    requires c in cs
    ensures Hint(c) in MissingHints(password, cs) <==> !Meets(password, c)
  {
    if cs[0] != c {
      FeedbackNamesMissed(password, cs[1..], c);
      assert Hint(cs[0]) != Hint(c);
    } else if c in cs[1..] {
      FeedbackNamesMissed(password, cs[1..], c);
    } else {
      FeedbackOmitsOthers(password, cs[1..], c);
    }
  }

  lemma {:induction false} FeedbackOmitsOthers(password: string, cs: seq<Criterion>, c: Criterion)
    requires c !in cs
    ensures Hint(c) !in MissingHints(password, cs)
  {
    if cs != [] {
      assert Hint(cs[0]) != Hint(c);
      FeedbackOmitsOthers(password, cs[1..], c);
    }
  }

  /** The score lies in 0..5, and it is 5 exactly when the feedback is empty. */
  lemma StrengthRange(password: string)
    ensures MetCount(password, Criteria) <= 5
    ensures MetCount(password, Criteria) == 5 <==> MissingHints(password, Criteria) == []
  {
    ScorePlusFeedback(password, Criteria);
  }

  /** `strengthLevels`. */
  const StrengthLevels: seq<string> := ["Very Weak", "Weak", "Fair", "Good", "Strong"]
  /** `strengthColors`. */
  const StrengthColors: seq<string> := ["#ef4444", "#f59e0b", "#eab308", "#22c55e", "#10b981"]

  /** `strengthLevels[strength] || 'Very Weak'`: an index past the end falls back. */
  function StrengthLabel(strength: nat): string {
    if strength < |StrengthLevels| then StrengthLevels[strength] else "Very Weak"
  }

  /** `strengthColors[strength] || '#ef4444'`. */
  function StrengthColor(strength: nat): string {
    if strength < |StrengthColors| then StrengthColors[strength] else "#ef4444"
  }

  /** The indicator's text: the label, then the missed criteria when there are any. */
  function StrengthText(strength: nat, feedback: seq<string>): string {
    StrengthLabel(strength) + if |feedback| > 0 then " (Missing: " + Join(feedback, ", ") + ")" else ""
  }

  /**
   * A password that meets all five criteria scores 5, one past the end of the label
   * list, so it is shown as "Very Weak" in the weakest colour, with no hint.
   */
  lemma FullStrengthShownVeryWeak(password: string)
    requires forall c :: c in Criteria ==> Meets(password, c)
    ensures MetCount(password, Criteria) == 5
    ensures StrengthText(MetCount(password, Criteria), MissingHints(password, Criteria)) == "Very Weak"
    ensures StrengthColor(MetCount(password, Criteria)) == "#ef4444"
  {
    ScorePlusFeedback(password, Criteria);
    forall c | c in Criteria
      ensures Hint(c) !in MissingHints(password, Criteria)
    {
      FeedbackNamesMissed(password, Criteria, c);
    }
    if MissingHints(password, Criteria) != [] {
      var h := MissingHints(password, Criteria)[0];
      assert h in MissingHints(password, Criteria);
      HintsComeFrom(password, Criteria, h);
    }
  }

  /** Every hint in the feedback is the hint of some criterion of `cs`. */
  lemma {:induction false} HintsComeFrom(password: string, cs: seq<Criterion>, h: string)
    requires h in MissingHints(password, cs)
    ensures exists c :: c in cs && h == Hint(c)
  {
    if h == Hint(cs[0]) {
      assert cs[0] in cs;
    } else {
      HintsComeFrom(password, cs[1..], h);
      var c :| c in cs[1..] && h == Hint(c);
      assert c in cs;
    }
  }

  /** A password meeting every criterion. */
  lemma StrongExample()
    ensures forall c :: c in Criteria ==> Meets("Abcdef1!", c)
  {
    var p := "Abcdef1!";
    assert IsLowerLetter(p[1]) && IsUpperLetter(p[0]) && IsDigit(p[6]);
    assert !IsWordChar(p[7]) && !IsJsSpace(p[7]);
  }

  /** The label the levels evidently intend: the top score shows the top level. */
  function IntendedStrengthLabel(strength: nat): string {
    StrengthLevels[if strength < |StrengthLevels| then strength else |StrengthLevels| - 1]
  }

  function LevelRank(level: string): int {
    if level == "Very Weak" then 0 else if level == "Weak" then 1 else if level == "Fair" then 2
    else if level == "Good" then 3 else if level == "Strong" then 4 else -1
  }

  /** A higher score never shows a weaker label under the intended lookup. */
  lemma IntendedLabelMonotone(s: nat, t: nat)
    requires s <= t
    ensures LevelRank(IntendedStrengthLabel(s)) <= LevelRank(IntendedStrengthLabel(t))
    ensures LevelRank(IntendedStrengthLabel(t)) >= 0
  {
  }

  /** The lookup as written breaks that: scores 4 and 5 show "Strong" and "Very Weak". */
  lemma LabelNotMonotone()
    ensures LevelRank(StrengthLabel(4)) > LevelRank(StrengthLabel(5))
    ensures IntendedStrengthLabel(5) == "Strong"
  {
  }

  // ---------------------------------------------------------------- validateInput

  datatype InputType = EmailInput | PasswordInput | OtherInput

  /** The parts of an `<input>` the validator looks at. */
  datatype Field = Field(required: bool, inputType: InputType, name: string, value: string)

  datatype FieldError = Required | InvalidEmail | ShortPassword

  /** Regular-expression `[^\s@]`. */
  predicate EmailChar(c: char) { c != '@' && !IsJsSpace(c) }

  /** One or more `[^\s@]`. */
  predicate EmailPart(s: string) { s != [] && forall k :: 0 <= k < |s| ==> EmailChar(s[k]) }

  /** `/^[^\s@]+@[^\s@]+\.[^\s@]+$/`, read as its three parts around an `@` and a dot. */
  predicate EmailPattern(s: string) {
    exists at, dot :: 0 <= at < dot < |s| && s[at] == '@' && s[dot] == '.'
      && EmailPart(s[..at]) && EmailPart(s[at + 1..dot]) && EmailPart(s[dot + 1..])
  }

  /**
   * What the pattern amounts to: no whitespace, exactly one `@`, not first, and a dot
   * after it that neither follows the `@` directly nor ends the text.
   */
  predicate EmailShape(s: string) {
    && (forall k :: 0 <= k < |s| ==> !IsJsSpace(s[k]))
    && exists at :: 0 < at && at + 4 <= |s| && s[at] == '@'
                    && (forall k :: 0 <= k < |s| && k != at ==> s[k] != '@')
                    && '.' in s[at + 2..|s| - 1]
  }

  lemma PatternHasShape(s: string, at: nat, dot: nat)
    requires 0 <= at < dot < |s| && s[at] == '@' && s[dot] == '.'
    requires EmailPart(s[..at]) && EmailPart(s[at + 1..dot]) && EmailPart(s[dot + 1..])
    ensures EmailShape(s)
  {
    forall k | 0 <= k < |s| && k != at
      ensures EmailChar(s[k])
    {
      if k < at {
        assert s[k] == s[..at][k];
      } else if k < dot {
        assert s[k] == s[at + 1..dot][k - at - 1];
      } else if k > dot {
        assert s[k] == s[dot + 1..][k - dot - 1];
      }
    }
    assert s[at + 2..|s| - 1][dot - at - 2] == '.';
  }

  lemma ShapeHasPattern(s: string, at: nat)
    requires forall k :: 0 <= k < |s| ==> !IsJsSpace(s[k])
    requires 0 < at && at + 4 <= |s| && s[at] == '@'
    requires forall k :: 0 <= k < |s| && k != at ==> s[k] != '@'
    requires '.' in s[at + 2..|s| - 1]
    ensures EmailPattern(s)
  {
    var m :| 0 <= m < |s[at + 2..|s| - 1]| && s[at + 2..|s| - 1][m] == '.';
    var dot := at + 2 + m;
    assert s[dot] == '.';
    assert EmailPart(s[..at]);
    assert EmailPart(s[at + 1..dot]);
    assert EmailPart(s[dot + 1..]);
  }

  lemma EmailPatternMeaning(s: string)
    ensures EmailPattern(s) <==> EmailShape(s)
  {
    if EmailPattern(s) {
      var at, dot :| 0 <= at < dot < |s| && s[at] == '@' && s[dot] == '.'
        && EmailPart(s[..at]) && EmailPart(s[at + 1..dot]) && EmailPart(s[dot + 1..]);
      PatternHasShape(s, at, dot);
    }
    if EmailShape(s) {
      var at :| 0 < at && at + 4 <= |s| && s[at] == '@'
                && (forall k :: 0 <= k < |s| && k != at ==> s[k] != '@')
                && '.' in s[at + 2..|s| - 1];
      ShapeHasPattern(s, at);
    }
  }

  lemma EmailPatternExamples()
    ensures EmailPattern("a@x.com")
    ensures !EmailPattern("a@x")
  {
    var s := "a@x.com";
    assert s[..1] == "a" && s[2..3] == "x" && s[4..] == "com";
    assert EmailPart(s[..1]) && EmailPart(s[2..3]) && EmailPart(s[4..]);
    assert 0 <= 1 < 3 < |s| && s[1] == '@' && s[3] == '.';
    EmailPatternMeaning("a@x");
  }

  /**
   * The rules of `validateInput` on the trimmed value, in its order: a required field
   * left blank, an email field that does not match the pattern, a `password` field
   * shorter than six characters.
   */
  function FieldCheck(f: Field): (r: Option<FieldError>)
    ensures r == Some(Required) <==>
      f.required && forall k :: 0 <= k < |f.value| ==> IsJsSpace(f.value[k])
    ensures r == Some(InvalidEmail) ==>
              f.inputType == EmailInput && JsTrim(f.value) != "" && !EmailPattern(JsTrim(f.value))
    ensures r == Some(ShortPassword) ==>
              f.inputType == PasswordInput && f.name == "password" && 0 < |JsTrim(f.value)| < 6
    ensures r.None? && f.inputType == EmailInput && JsTrim(f.value) != "" ==> EmailPattern(JsTrim(f.value))
    ensures r.None? && f.inputType == PasswordInput && f.name == "password" ==>
      JsTrim(f.value) == "" || |JsTrim(f.value)| >= 6
  {
    TrimMeaning(f.value, IsJsSpace);
    var v := JsTrim(f.value);
    if f.required && v == "" then Some(Required)
    else if f.inputType == EmailInput && v != "" && !EmailPattern(v) then Some(InvalidEmail)
    else if f.inputType == PasswordInput && f.name == "password" && v != "" && |v| < 6 then Some(ShortPassword)
    else None
  }

  /** `validateInput`: true when no rule fails. */
  function ValidateInput(f: Field): (ok: bool)
    ensures ok && f.required ==> exists k :: 0 <= k < |f.value| && !IsJsSpace(f.value[k])
    ensures ok && f.inputType == EmailInput && JsTrim(f.value) != "" ==> EmailShape(JsTrim(f.value))
    ensures !ok ==> f.required || f.inputType != OtherInput
    ensures f.inputType == OtherInput ==> (ok <==> !f.required || exists k :: 0 <= k < |f.value| && !IsJsSpace(f.value[k]))
  {
    EmailPatternMeaning(JsTrim(f.value));
    FieldCheck(f).None?
  }

  /** An optional field that is left blank always passes, whatever its type. */
  lemma BlankOptionalFieldPasses(f: Field)
    requires !f.required && forall k :: 0 <= k < |f.value| ==> IsJsSpace(f.value[k])
    ensures ValidateInput(f)
  {
    TrimMeaning(f.value, IsJsSpace);
  }

  // ---------------------------------------------------------------- word count

  /** Position of the first character satisfying `p`, if any. */
  function FirstWhere(s: string, p: char -> bool): (r: Option<nat>)
    ensures r.None? ==> forall k :: 0 <= k < |s| ==> !p(s[k])
    ensures r.Some? ==> r.value < |s| && p(s[r.value]) && forall k :: 0 <= k < r.value ==> !p(s[k])
  {
    if s == [] then None
    else if p(s[0]) then Some(0)
    else match FirstWhere(s[1..], p)
      case None => None
      case Some(i) => Some(i + 1)
  }

  /** End of the whitespace run that starts at `i`. */
  function SpaceRunEnd(s: string, i: nat): (j: nat)
    requires i <= |s|
    ensures i <= j <= |s| && (j < |s| ==> !IsJsSpace(s[j]))
    ensures forall k :: i <= k < j ==> IsJsSpace(s[k])
    decreases |s| - i
  {
    if i < |s| && IsJsSpace(s[i]) then SpaceRunEnd(s, i + 1) else i
  }

  /** `text.split(/\s+/)`: the pieces between maximal whitespace runs. */
  function SplitOnSpace(s: string): seq<string>
    decreases |s|
  {
    match FirstWhere(s, IsJsSpace)
    case None => [s]
    case Some(i) => [s[..i]] + SplitOnSpace(s[SpaceRunEnd(s, i)..])
  }

  /** `.filter(word => word.length > 0).length`. */
  function NonEmptyCount(pieces: seq<string>): nat {
    if pieces == [] then 0
    else (if pieces[0] != [] then 1 else 0) + NonEmptyCount(pieces[1..])
  }

  /** `text ? text.split(/\s+/).filter(word => word.length > 0).length : 0` on the trimmed text. */
  function WordCount(value: string): nat {
    var text := JsTrim(value);
    if text == "" then 0 else NonEmptyCount(SplitOnSpace(text))
  }

  /**
   * The independent definition of "number of words": how many times the text passes
   * from whitespace (or its start) into a non-whitespace character.
   */
  function RunStarts(s: string, afterSpace: bool): nat {
    if s == [] then 0
    else (if afterSpace && !IsJsSpace(s[0]) then 1 else 0) + RunStarts(s[1..], IsJsSpace(s[0]))
  }

  lemma {:induction false} RunStartsWord(w: string, t: string, afterSpace: bool)
    requires w != [] && forall k :: 0 <= k < |w| ==> !IsJsSpace(w[k])
    ensures RunStarts(w + t, afterSpace) == (if afterSpace then 1 else 0) + RunStarts(t, false)
    decreases |w|
  {
    assert (w + t)[1..] == w[1..] + t;
    if |w| > 1 {
      RunStartsWord(w[1..], t, false);
    }
  }

  lemma {:induction false} RunStartsSpaces(sp: string, t: string, afterSpace: bool)
    requires sp != [] && forall k :: 0 <= k < |sp| ==> IsJsSpace(sp[k])
    ensures RunStarts(sp + t, afterSpace) == RunStarts(t, true)
    decreases |sp|
  {
    assert (sp + t)[1..] == sp[1..] + t;
    if |sp| > 1 {
      RunStartsSpaces(sp[1..], t, true);
    }
  }

  lemma {:induction false} RunStartsTrailingSpaces(t: string, sp: string, afterSpace: bool)
    requires forall k :: 0 <= k < |sp| ==> IsJsSpace(sp[k])
    ensures RunStarts(t + sp, afterSpace) == RunStarts(t, afterSpace)
    decreases |t|
  {
    if t == [] {
      if sp != [] {
        RunStartsSpaces(sp, [], afterSpace);
        assert sp + [] == sp;
      }
      assert t + sp == sp;
    } else {
      assert (t + sp)[1..] == t[1..] + sp;
      RunStartsTrailingSpaces(t[1..], sp, IsJsSpace(t[0]));
    }
  }

  /** A word, then a whitespace run, then the rest: the word counts once if non-empty. */
  lemma RunStartsStep(w: string, sp: string, rest: string)
    requires forall k :: 0 <= k < |w| ==> !IsJsSpace(w[k])
    requires sp != [] && forall k :: 0 <= k < |sp| ==> IsJsSpace(sp[k])
    ensures RunStarts(w + (sp + rest), true) == (if w != [] then 1 else 0) + RunStarts(rest, true)
  {
    RunStartsSpaces(sp, rest, true);
    if w != [] {
      RunStartsWord(w, sp + rest, true);
      RunStartsSpaces(sp, rest, false);
    } else {
      assert w + (sp + rest) == sp + rest;
    }
  }

  lemma NonEmptyCountCons(w: string, pieces: seq<string>)
    ensures NonEmptyCount([w] + pieces) == (if w != [] then 1 else 0) + NonEmptyCount(pieces)
  {
    assert ([w] + pieces)[1..] == pieces;
  }

  /** Splitting on whitespace and dropping empty pieces leaves one piece per word. */
  lemma {:induction false} SplitCountsRuns(s: string)
    ensures NonEmptyCount(SplitOnSpace(s)) == RunStarts(s, true)
    decreases |s|
  {
    match FirstWhere(s, IsJsSpace)
    case None =>
      assert SplitOnSpace(s) == [s];
      NonEmptyCountCons(s, []);
      if s != [] {
        RunStartsWord(s, [], true);
        assert s + [] == s;
      }
    case Some(i) =>
      SplitHead(s, i);
      RunStartsHead(s, i);
      SplitCountsRuns(s[SpaceRunEnd(s, i)..]);
  }

  /** The first piece of the split is the text before the first whitespace run. */
  lemma SplitHead(s: string, i: nat)
    requires FirstWhere(s, IsJsSpace) == Some(i)
    ensures NonEmptyCount(SplitOnSpace(s)) ==
      (if i > 0 then 1 else 0) + NonEmptyCount(SplitOnSpace(s[SpaceRunEnd(s, i)..]))
  {
    var rest := s[SpaceRunEnd(s, i)..];
    assert SplitOnSpace(s) == [s[..i]] + SplitOnSpace(rest);
    NonEmptyCountCons(s[..i], SplitOnSpace(rest));
  }

  /** A leading word and the whitespace run after it count once, if the word is non-empty. */
  lemma RunStartsHead(s: string, i: nat)
    requires i < |s| && IsJsSpace(s[i]) && forall k :: 0 <= k < i ==> !IsJsSpace(s[k])
    ensures RunStarts(s, true) == (if i > 0 then 1 else 0) + RunStarts(s[SpaceRunEnd(s, i)..], true)
  {
    var j := SpaceRunEnd(s, i);
    var w, sp, rest := s[..i], s[i..j], s[j..];
    forall k | 0 <= k < |w|
      ensures !IsJsSpace(w[k])
    {
      assert w[k] == s[k];
    }
    forall k | 0 <= k < |sp|
      ensures IsJsSpace(sp[k])
    {
      assert sp[k] == s[i + k];
    }
    ThreePieces(s, i, j);
    RunStartsStep(w, sp, rest);
  }

  lemma ThreePieces(s: string, i: nat, j: nat)
    requires i <= j <= |s|
    ensures s == s[..i] + (s[i..j] + s[j..])
  {
  }

  /**
   * The displayed word count is the number of maximal non-whitespace runs of the
   * value, and 0 for an empty or blank value.
   */
  lemma WordCountIsRuns(value: string)
    ensures WordCount(value) == RunStarts(value, true)
  {
    var text := JsTrim(value);
    var lead, trail := TrimSplit(value, IsJsSpace);
    assert value == (lead + text) + trail;
    RunStartsTrailingSpaces(lead + text, trail, true);
    if lead != [] {
      RunStartsSpaces(lead, text, true);
    } else {
      assert lead + text == text;
    }
    if text != "" {
      SplitCountsRuns(text);
    }
  }

  /** `wordCountDisplay` colours. */
  datatype CountColor = ErrorColor | WarningColor | SuccessColor

  /** What `updateWordCount` shows: the word count, the trimmed length and the colour. */
  datatype WordCountDisplay = WordCountDisplay(words: nat, characters: nat, color: CountColor)

  function CountColorFor(words: nat): (c: CountColor)
    ensures c == ErrorColor <==> words < 50
    ensures c == WarningColor <==> 50 <= words < 100
    ensures c == SuccessColor <==> words >= 100
  {
    if words < 50 then ErrorColor else if words < 100 then WarningColor else SuccessColor
  }

  /**
   * `updateWordCount`: the number of words (maximal runs of non-whitespace), the
   * trimmed length, and the colour the word count earns.
   */
  function UpdateWordCount(value: string): (d: WordCountDisplay)
    ensures d.words == RunStarts(value, true)
    ensures d.characters == |JsTrim(value)| && d.characters <= |value|
    ensures d.words <= d.characters
    ensures d.color == CountColorFor(d.words)
  {
    var words := WordCount(value);
    WordCountIsRuns(value);
    WordDisplayFacts(value);
    WordCountDisplay(words, |JsTrim(value)|, CountColorFor(words))
  }

  lemma WordDisplayFacts(value: string)
    ensures WordCount(value) <= |JsTrim(value)|
  {
    var text := JsTrim(value);
    if text != "" {
      SplitCountsRuns(text);
      WordsFitInCharacters(text);
    }
  }

  /** There are never more words than characters. */
  lemma {:induction false} WordsFitInCharacters(s: string)
    ensures NonEmptyCount(SplitOnSpace(s)) <= |s|
  {
    SplitCountsRuns(s);
    RunStartsAtMostLength(s, true);
  }

  lemma {:induction false} RunStartsAtMostLength(s: string, afterSpace: bool)
    ensures RunStarts(s, afterSpace) <= |s|
  {
    if s != [] {
      RunStartsAtMostLength(s[1..], IsJsSpace(s[0]));
    }
  }

  // ---------------------------------------------------------------- search box

  /** The submit handler cancels the search when the trimmed query is empty. */
  predicate SubmitCancelled(value: string) {
    JsTrim(value) == ""
  }

  /** The debounced input handler searches only once the raw value has 3 characters. */
  predicate AutoSearchFires(value: string) {
    |value| >= 3
  }

  /** A query whose trimmed text has three characters always triggers the auto-search. */
  lemma AutoSearchOnTrimmedQuery(value: string)
    requires |JsTrim(value)| >= 3
    ensures AutoSearchFires(value)
  {
  }

  /**
   * The auto-search looks at the untrimmed length, so three spaces start a search that
   * the submit guard would have cancelled and that the server answers by redirecting home.
   */
  lemma AutoSearchSendsBlankQuery()
    ensures AutoSearchFires("   ") && SubmitCancelled("   ") && PyStrip("   ") == ""
  {
    TrimMeaning("   ", IsJsSpace);
    TrimMeaning("   ", IsPySpace);
  }

  /** A submission is cancelled exactly when the query is all whitespace. */
  lemma SubmitCancelledMeaning(value: string)
    ensures SubmitCancelled(value) <==> forall k :: 0 <= k < |value| ==> IsJsSpace(value[k])
  {
    TrimMeaning(value, IsJsSpace);
  }

  /**
   * The browser's and the server's ideas of a blank query agree unless the query holds
   * a character only one of them counts as whitespace; U+001C is one such character.
   */
  lemma BlankQueryGuardsAgree(value: string)
    requires forall k :: 0 <= k < |value| ==> (IsJsSpace(value[k]) <==> IsPySpace(value[k]))
    ensures SubmitCancelled(value) <==> PyStrip(value) == ""
  {
    TrimMeaning(value, IsJsSpace);
    TrimMeaning(value, IsPySpace);
  }

  lemma BlankQueryGuardsDiffer()
    ensures !SubmitCancelled("\U{1C}") && PyStrip("\U{1C}") == ""
  {
    var q := "\U{1C}";
    TrimMeaning(q, IsJsSpace);
    TrimMeaning(q, IsPySpace);
    assert !IsJsSpace(q[0]) && IsPySpace(q[0]);
  }

  // ---------------------------------------------------------------- image upload

  /** `5 * 1024 * 1024` bytes. */
  const MaxImageBytes: int := 5 * 1024 * 1024

  datatype SelectedFile = SelectedFile(size: int, mimeType: string)

  datatype ImageVerdict = NoFile | TooLarge | NotAnImage | Previewed

  /**
   * The checks of the image input's change handler: nothing chosen does nothing; a
   * file over 5 MiB, or one whose type does not start with `image/`, is rejected and
   * the input cleared; anything else is previewed.
   */
  function CheckImage(file: Option<SelectedFile>): (v: ImageVerdict)
    ensures v == NoFile <==> file.None?
    ensures v == TooLarge <==> file.Some? && file.value.size > MaxImageBytes
    ensures v == NotAnImage <==>
      file.Some? && file.value.size <= MaxImageBytes && !("image/" <= file.value.mimeType)
    ensures v == Previewed <==>
      file.Some? && file.value.size <= MaxImageBytes && "image/" <= file.value.mimeType
    ensures ClearsInput(v) <==>
      file.Some? && (file.value.size > MaxImageBytes || !("image/" <= file.value.mimeType))
  {
    if file.None? then NoFile
    else if file.value.size > MaxImageBytes then TooLarge
    else if !("image/" <= file.value.mimeType) then NotAnImage
    else Previewed
  }

  /** Whether the handler clears the input. */
  predicate ClearsInput(v: ImageVerdict) {
    v == TooLarge || v == NotAnImage
  }
}
