/**
 * Request validation of the SQLite-backed employee service (app.js):
 * the presence check, the three regular expressions, the ordered chain of
 * field rules, and the selection "presence first, then the field rules"
 * that the POST and PUT routes run before touching the database.
 */
module Validator {

  datatype Option<T> = None | Some(value: T)

  /** A parsed request body. A text field is None when its key is absent. */
  datatype Candidate = Candidate(
    name: Option<string>,
    email: Option<string>,
    gender: Option<string>,
    age: Option<int>,
    department: Option<string>)

  /** The five fields of a body in which every field is present. */
  datatype Fields = Fields(name: string, email: string, gender: string, age: int, department: string)

  // ---------------------------------------------------------------------
  // Presence
  // ---------------------------------------------------------------------

  datatype Key = NameKey | EmailKey | GenderKey | AgeKey | DepartmentKey

  /** The key list that the presence check walks, in its order. */
  const REQUIRED_KEYS: seq<Key> := [NameKey, EmailKey, GenderKey, AgeKey, DepartmentKey]

  /** A value is present when it is neither undefined nor the empty string. */
  predicate Present(c: Candidate, k: Key) {
    match k
    case NameKey => c.name.Some? && c.name.value != ""
    case EmailKey => c.email.Some? && c.email.value != ""
    case GenderKey => c.gender.Some? && c.gender.value != ""
    case AgeKey => c.age.Some?
    case DepartmentKey => c.department.Some? && c.department.value != ""
  }

  /** `keys.every(k => present)`: true when each listed key is present. */
  function Every(c: Candidate, keys: seq<Key>): bool {
    if keys == [] then true else Present(c, keys[0]) && Every(c, keys[1..])
  }

  lemma {:induction false} EveryAt(c: Candidate, keys: seq<Key>)
    ensures Every(c, keys) <==> forall i :: 0 <= i < |keys| ==> Present(c, keys[i])
  {
    if keys != [] {
      EveryAt(c, keys[1..]);
      assert forall i :: 1 <= i < |keys| ==> keys[i] == keys[1..][i - 1];
    }
  }

  /** Where each key stands in REQUIRED_KEYS. */
  function KeyIndex(k: Key): (i: nat)
    ensures i < |REQUIRED_KEYS| && REQUIRED_KEYS[i] == k
  {
    match k
    case NameKey => 0
    case EmailKey => 1
    case GenderKey => 2
    case AgeKey => 3
    case DepartmentKey => 4
  }

  lemma {:induction false} EveryRequiredKey(c: Candidate)
    ensures Every(c, REQUIRED_KEYS) <==> forall k: Key :: Present(c, k)
  {
    EveryAt(c, REQUIRED_KEYS);
    if Every(c, REQUIRED_KEYS) {
      forall k: Key
        ensures Present(c, k)
      {
        var i := KeyIndex(k);
      }
    }
  }

  /** The presence check covers every one of the five fields. */
  function AllFieldsPresent(c: Candidate): (r: bool)
    ensures r <==> forall k: Key :: Present(c, k)
  {
    EveryRequiredKey(c);
    Every(c, REQUIRED_KEYS)
  }

  /** The fields of a body that passed the presence check. */
  function FieldsOf(c: Candidate): Fields
    requires AllFieldsPresent(c)
  {
    assert Present(c, NameKey) && Present(c, EmailKey) && Present(c, GenderKey);
    assert Present(c, AgeKey) && Present(c, DepartmentKey);
    Fields(c.name.value, c.email.value, c.gender.value, c.age.value, c.department.value)
  }

  // ---------------------------------------------------------------------
  // Name and department: ^[A-Za-z][A-Za-z .'-]{1,48}$
  // ---------------------------------------------------------------------

  predicate IsAsciiLetter(ch: char) {
    'A' <= ch <= 'Z' || 'a' <= ch <= 'z'
  }

  /** The class `[A-Za-z .'-]`. */
  predicate IsNameChar(ch: char) {
    IsAsciiLetter(ch) || ch == ' ' || ch == '.' || ch == '\'' || ch == '-'
  }

  /** `[A-Za-z .'-]{min,max}$`: between min and max class characters, then the end of the input. */
  function MatchRepeat(s: string, min: nat, max: nat): bool
    decreases |s|
  {
    if s == [] then min == 0
    else max > 0 && IsNameChar(s[0]) && MatchRepeat(s[1..], if min == 0 then 0 else min - 1, max - 1)
  }

  /**
   * The name pattern as written, matched the way the regular expression
   * reads: anchor, one letter, `[A-Za-z .'-]{1,48}`, anchor. It admits at
   * most 49 characters, one fewer than its comment and its error message
   * announce.
   */
  function MatchNameAsWritten(s: string): bool {
    |s| > 0 && IsAsciiLetter(s[0]) && MatchRepeat(s[1..], 1, 48)
  }

  /** The name pattern with the repetition bound that gives the announced 2 to 50 characters: `{1,49}`. */
  function MatchName(s: string): bool {
    |s| > 0 && IsAsciiLetter(s[0]) && MatchRepeat(s[1..], 1, 49)
  }

  /** What the name rule announces: 2 to 50 characters, a letter first, letters, spaces, `.`, `'` or `-` after it. */
  predicate NameShape(s: string) {
    && 2 <= |s| <= 50
    && IsAsciiLetter(s[0])
    && forall i :: 1 <= i < |s| ==> IsNameChar(s[i])
  }

  lemma {:induction false} MatchRepeatCorrect(s: string, min: nat, max: nat)
    ensures MatchRepeat(s, min, max) <==> min <= |s| <= max && forall i :: 0 <= i < |s| ==> IsNameChar(s[i])
    decreases |s|
  {
    if s != [] && max > 0 {
      MatchRepeatCorrect(s[1..], if min == 0 then 0 else min - 1, max - 1);
      assert forall i :: 1 <= i < |s| ==> s[i] == s[1..][i - 1];
    }
  }

  /** A letter followed by `[A-Za-z .'-]{1,max}` and the end: the shape, with at most max + 1 characters. */
  lemma {:induction false} LetterThenRepeat(s: string, max: nat)
    requires |s| > 0
    ensures IsAsciiLetter(s[0]) && MatchRepeat(s[1..], 1, max) <==>
      && 2 <= |s| <= max + 1
      && IsAsciiLetter(s[0])
      && forall i :: 1 <= i < |s| ==> IsNameChar(s[i])
  {
    var tail := s[1..];
    MatchRepeatCorrect(tail, 1, max);
    assert forall i :: 1 <= i < |s| ==> s[i] == tail[i - 1];
  }

  /** The corrected name matcher accepts exactly the strings of NameShape. */
  lemma {:induction false} MatchNameCorrect(s: string)
    ensures MatchName(s) <==> NameShape(s)
  {
    if |s| > 0 {
      LetterThenRepeat(s, 49);
    }
  }

  /** The pattern as written accepts the strings of NameShape that have at most 49 characters, and no others. */
  lemma {:induction false} MatchNameAsWrittenShape(s: string)
    ensures MatchNameAsWritten(s) <==> NameShape(s) && |s| <= 49
  {
    if |s| > 0 {
      LetterThenRepeat(s, 48);
    }
  }

  /** Fifty letters: a name the rule announces as valid and the pattern as written rejects. */
  lemma FiftyLetterNameRejected()
    ensures NameShape(seq(50, i => 'a'))
    ensures !MatchNameAsWritten(seq(50, i => 'a'))
  {
    MatchNameAsWrittenShape(seq(50, i => 'a'));
  }

  /** The length bounds of the corrected name rule: 2 and 50 characters pass, 1 and 51 do not. */
  lemma {:induction false} NameLengthBounds(s: string)
    requires |s| > 0 && IsAsciiLetter(s[0])
    requires forall i :: 1 <= i < |s| ==> IsNameChar(s[i])
    ensures MatchName(s) <==> 2 <= |s| <= 50
  {
    MatchNameCorrect(s);
  }

  // ---------------------------------------------------------------------
  // E-mail: ^[^\s@]+@[^\s@]+\.[^\s@]+$
  // ---------------------------------------------------------------------

  /** The JavaScript `\s` class: the ECMAScript white space and line terminator characters. */
  predicate IsJsSpace(ch: char) {
    || ch == '\t' || ch == '\n' || ch == '\U{000B}' || ch == '\U{000C}' || ch == '\r' || ch == ' '
    || ch == '\U{00A0}' || ch == '\U{1680}' || ('\U{2000}' <= ch <= '\U{200A}')
    || ch == '\U{2028}' || ch == '\U{2029}' || ch == '\U{202F}' || ch == '\U{205F}'
    || ch == '\U{3000}' || ch == '\U{FEFF}'
  }

  /** The class `[^\s@]`. */
  predicate IsEmailChar(ch: char) {
    !IsJsSpace(ch) && ch != '@'
  }

  predicate AllEmailChars(t: string) {
    forall k :: 0 <= k < |t| ==> IsEmailChar(t[k])
  }

  /** The index of the first occurrence of `ch` in `s`, or |s| when there is none. */
  function FirstIndex(s: string, ch: char): (r: nat)
    ensures r <= |s|
    ensures r < |s| ==> s[r] == ch
    ensures forall k :: 0 <= k < r ==> s[k] != ch
  {
    if s == [] then 0
    else if s[0] == ch then 0
    else 1 + FirstIndex(s[1..], ch)
  }

  /** `[^\s@]+\.[^\s@]+$` on what follows the `@`: class characters only, with a `.` neither first nor last. */
  function MatchDomain(d: string): bool {
    AllEmailChars(d) && |d| >= 3 && '.' in d[1..|d| - 1]
  }

  /**
   * The e-mail pattern as a matcher. The local part admits no `@`, so the
   * `@` of the pattern can only be the first one of the input.
   */
  function MatchEmail(s: string): bool {
    var at := FirstIndex(s, '@');
    0 < at < |s| && AllEmailChars(s[..at]) && MatchDomain(s[at + 1..])
  }

  /**
   * The input splits, at the `@` at index `at` and the `.` at index `dot`,
   * into three non-empty segments of `[^\s@]` characters.
   */
  predicate EmailSplit(s: string, at: int, dot: int) {
    && 0 < at && at + 1 < dot && dot + 1 < |s|
    && s[at] == '@' && s[dot] == '.'
    && AllEmailChars(s[..at]) && AllEmailChars(s[at + 1..dot]) && AllEmailChars(s[dot + 1..])
  }

  /**
   * What the e-mail pattern accepts: a non-empty local part, an `@`, a
   * non-empty segment, a `.`, a non-empty segment, with no white space and
   * no other `@` anywhere.
   */
  ghost predicate EmailShape(s: string) {
    exists at, dot :: EmailSplit(s, at, dot)
  }

  lemma {:induction false} AllEmailCharsRange(s: string, lo: nat, hi: nat)
    requires lo <= hi <= |s|
    ensures AllEmailChars(s[lo..hi]) <==> forall k :: lo <= k < hi ==> IsEmailChar(s[k])
  {
    assert forall k :: lo <= k < hi ==> s[k] == s[lo..hi][k - lo];
  }

  lemma {:induction false} FirstIndexAt(s: string, ch: char, a: nat)
    requires a < |s| && s[a] == ch
    requires forall k :: 0 <= k < a ==> s[k] != ch
    ensures FirstIndex(s, ch) == a
  {
  }

  lemma {:induction false} MatchEmailSound(s: string)
    requires MatchEmail(s)
    ensures EmailShape(s)
  {
    var at := FirstIndex(s, '@');
    var d := s[at + 1..];
    var i :| 0 <= i < |d| - 2 && d[1..|d| - 1][i] == '.';
    var dot := at + 2 + i;
    assert d[i + 1] == '.';
    assert s[dot] == d[i + 1];
    AllEmailCharsRange(s, at + 1, |s|);
    AllEmailCharsRange(s, at + 1, dot);
    AllEmailCharsRange(s, dot + 1, |s|);
    assert EmailSplit(s, at, dot);
  }

  lemma {:induction false} MatchEmailComplete(s: string, at: int, dot: int)
    requires EmailSplit(s, at, dot)
    ensures MatchEmail(s)
  {
    AllEmailCharsRange(s, 0, at);
    FirstIndexAt(s, '@', at);
    AllEmailCharsRange(s, at + 1, dot);
    AllEmailCharsRange(s, dot + 1, |s|);
    assert forall k :: at + 1 <= k < |s| ==> IsEmailChar(s[k]);
    AllEmailCharsRange(s, at + 1, |s|);
    var d := s[at + 1..];
    assert d[1..|d| - 1][dot - at - 2] == '.';
  }

  /** The e-mail matcher accepts exactly the strings of EmailShape. */
  lemma {:induction false} MatchEmailCorrect(s: string)
    ensures MatchEmail(s) <==> EmailShape(s)
  {
    if MatchEmail(s) {
      MatchEmailSound(s);
    }
    if EmailShape(s) {
      var at, dot :| EmailSplit(s, at, dot);
      MatchEmailComplete(s, at, dot);
    }
  }

  /** An accepted e-mail address holds exactly one `@`. */
  lemma {:induction false} EmailSingleAt(s: string)
    requires MatchEmail(s)
    ensures forall k :: 0 <= k < |s| && s[k] == '@' ==> k == FirstIndex(s, '@')
  {
    AllEmailCharsRange(s, FirstIndex(s, '@') + 1, |s|);
  }

  /** "a@b.c" passes; "a@b" and "a@.c" do not. */
  lemma EmailExamples()
    ensures MatchEmail("a@b.c")
    ensures !MatchEmail("a@b")
    ensures !MatchEmail("a@.c")
  {
    assert FirstIndex("a@b.c", '@') == 1;
    assert "a@b.c"[2..] == "b.c";
    assert "b.c"[1..2] == ".";
    assert FirstIndex("a@b", '@') == 1;
    assert "a@b"[2..] == "b";
    assert FirstIndex("a@.c", '@') == 1;
    assert "a@.c"[2..] == ".c";
  }

  // ---------------------------------------------------------------------
  // The ordered chain of field rules
  // ---------------------------------------------------------------------

  datatype Rule = NameRule | DepartmentRule | EmailRule | GenderRule | AgeRule

  /** The order in which the rules are tried. */
  const RULE_ORDER: seq<Rule> := [NameRule, DepartmentRule, EmailRule, GenderRule, AgeRule]

  /** Where each rule stands in RULE_ORDER. */
  function RuleIndex(rule: Rule): (i: nat)
    ensures i < |RULE_ORDER| && RULE_ORDER[i] == rule
  {
    match rule
    case NameRule => 0
    case DepartmentRule => 1
    case EmailRule => 2
    case GenderRule => 3
    case AgeRule => 4
  }

  const REQUIRED_MESSAGE: string := "All fields are required."

  function Message(rule: Rule): string {
    match rule
    case NameRule => "Name must contain letters only (2-50)."
    case DepartmentRule => "Department: letters only (2-50)."
    case EmailRule => "Invalid e-mail address."
    case GenderRule => "Gender must be Male or Female."
    case AgeRule => "Age must be between 18 and 65."
  }

  /** The first character of each message, and the second, which is never the `l` of "All". */
  lemma MessageStart(rule: Rule)
    ensures |Message(rule)| > 1 && Message(rule)[1] != 'l'
    ensures Message(rule)[0] == match rule
      case NameRule => 'N'
      case DepartmentRule => 'D'
      case EmailRule => 'I'
      case GenderRule => 'G'
      case AgeRule => 'A'
  {
    match rule
    case NameRule =>
    case DepartmentRule =>
    case EmailRule =>
    case GenderRule =>
    case AgeRule =>
  }

  /** Every message names one rule, and none is the presence message. */
  lemma MessagesDistinct(r1: Rule, r2: Rule)
    ensures Message(r1) == Message(r2) ==> r1 == r2
    ensures Message(r1) != REQUIRED_MESSAGE
  {
    MessageStart(r1);
    MessageStart(r2);
    assert REQUIRED_MESSAGE[1] == 'l';
  }

  /** The longest name or department that the pattern as written, `{1,48}`, admits. */
  const WRITTEN_LONGEST: nat := 49

  /** The longest name or department that the messages announce, admitted by `{1,49}`. */
  const ANNOUNCED_LONGEST: nat := 50

  /**
   * What each rule demands of the fields, stated without the matchers;
   * `longest` is the longest name or department the name pattern admits.
   */
  ghost predicate Satisfies(f: Fields, rule: Rule, longest: nat) {
    match rule
    case NameRule => NameShape(f.name) && |f.name| <= longest
    case DepartmentRule => NameShape(f.department) && |f.department| <= longest
    case EmailRule => EmailShape(f.email)
    case GenderRule => f.gender == "Male" || f.gender == "Female"
    case AgeRule => 18 <= f.age <= 65
  }

  /** Rule number i of RULE_ORDER is the first one the fields break. */
  ghost predicate FirstBroken(f: Fields, i: int, longest: nat) {
    && 0 <= i < |RULE_ORDER|
    && !Satisfies(f, RULE_ORDER[i], longest)
    && forall j :: 0 <= j < i ==> Satisfies(f, RULE_ORDER[j], longest)
  }

  /**
   * The field rules exactly as written, tried in order: the message of the
   * first rule that fails, or None when all five pass. Names and
   * departments of 50 characters fail.
   */
  function FieldValidAsWritten(f: Fields): (r: Option<string>)
    ensures r == None <==> forall i :: 0 <= i < |RULE_ORDER| ==> Satisfies(f, RULE_ORDER[i], WRITTEN_LONGEST)
    ensures r != None ==> exists i :: FirstBroken(f, i, WRITTEN_LONGEST) && r == Some(Message(RULE_ORDER[i]))
  {
    MatchNameAsWrittenShape(f.name);
    MatchNameAsWrittenShape(f.department);
    MatchEmailCorrect(f.email);
    assert FirstBroken(f, 0, WRITTEN_LONGEST) <== !MatchNameAsWritten(f.name);
    assert FirstBroken(f, 1, WRITTEN_LONGEST) <== MatchNameAsWritten(f.name) && !MatchNameAsWritten(f.department);
    assert FirstBroken(f, 2, WRITTEN_LONGEST) <== MatchNameAsWritten(f.name) && MatchNameAsWritten(f.department)
      && !MatchEmail(f.email);
    assert FirstBroken(f, 3, WRITTEN_LONGEST) <== MatchNameAsWritten(f.name) && MatchNameAsWritten(f.department)
      && MatchEmail(f.email) && !(f.gender in ["Male", "Female"]);
    assert FirstBroken(f, 4, WRITTEN_LONGEST) <== MatchNameAsWritten(f.name) && MatchNameAsWritten(f.department)
      && MatchEmail(f.email) && f.gender in ["Male", "Female"] && (f.age < 18 || f.age > 65);
    if !MatchNameAsWritten(f.name) then Some(Message(NameRule))
    else if !MatchNameAsWritten(f.department) then Some(Message(DepartmentRule))
    else if !MatchEmail(f.email) then Some(Message(EmailRule))
    else if !(f.gender in ["Male", "Female"]) then Some(Message(GenderRule))
    else if f.age < 18 || f.age > 65 then Some(Message(AgeRule))
    else None
  }

  /**
   * The field rules with the corrected name pattern `{1,49}`: the message of
   * the first rule that fails, or None when all five pass.
   */
  function FieldValid(f: Fields): (r: Option<string>)
    ensures r == None <==> forall i :: 0 <= i < |RULE_ORDER| ==> Satisfies(f, RULE_ORDER[i], ANNOUNCED_LONGEST)
    ensures r != None ==> exists i :: FirstBroken(f, i, ANNOUNCED_LONGEST) && r == Some(Message(RULE_ORDER[i]))
  {
    MatchNameCorrect(f.name);
    MatchNameCorrect(f.department);
    MatchEmailCorrect(f.email);
    assert FirstBroken(f, 0, ANNOUNCED_LONGEST) <== !MatchName(f.name);
    assert FirstBroken(f, 1, ANNOUNCED_LONGEST) <== MatchName(f.name) && !MatchName(f.department);
    assert FirstBroken(f, 2, ANNOUNCED_LONGEST) <== MatchName(f.name) && MatchName(f.department) && !MatchEmail(f.email);
    assert FirstBroken(f, 3, ANNOUNCED_LONGEST) <== MatchName(f.name) && MatchName(f.department) && MatchEmail(f.email)
      && !(f.gender in ["Male", "Female"]);
    assert FirstBroken(f, 4, ANNOUNCED_LONGEST) <== MatchName(f.name) && MatchName(f.department) && MatchEmail(f.email)
      && f.gender in ["Male", "Female"] && (f.age < 18 || f.age > 65);
    if !MatchName(f.name) then Some(Message(NameRule))
    else if !MatchName(f.department) then Some(Message(DepartmentRule))
    else if !MatchEmail(f.email) then Some(Message(EmailRule))
    else if !(f.gender in ["Male", "Female"]) then Some(Message(GenderRule))
    else if f.age < 18 || f.age > 65 then Some(Message(AgeRule))
    else None
  }

  /** The two name matchers disagree only on strings of 50 characters. */
  lemma {:induction false} NameMatchersAgree(s: string)
    ensures MatchNameAsWritten(s) <==> MatchName(s) && |s| != 50
  {
    MatchNameAsWrittenShape(s);
    MatchNameCorrect(s);
  }

  /**
   * The chain as written differs from the corrected one only where the name
   * or the department has 50 characters and otherwise passes the name rule:
   * there it reports that rule's message.
   */
  lemma {:induction false} ChainsAgree(f: Fields)
    ensures FieldValidAsWritten(f) ==
      if MatchName(f.name) && |f.name| == 50 then Some(Message(NameRule))
      else if MatchName(f.name) && MatchName(f.department) && |f.department| == 50 then Some(Message(DepartmentRule))
      else FieldValid(f)
  {
    NameMatchersAgree(f.name);
    NameMatchersAgree(f.department);
  }

  /** A complete record with a fifty-letter name: rejected as written, accepted once corrected. */
  lemma FiftyLetterRecordRejected()
    ensures FieldValidAsWritten(Fields(seq(50, i => 'a'), "a@b.c", "Male", 30, "HR")) == Some(Message(NameRule))
    ensures FieldValid(Fields(seq(50, i => 'a'), "a@b.c", "Male", 30, "HR")) == None
  {
    var f := Fields(seq(50, i => 'a'), "a@b.c", "Male", 30, "HR");
    FiftyLetterNameRejected();
    MatchNameCorrect(f.name);
    MatchNameCorrect(f.department);
    EmailExamples();
  }

  lemma AllRules(f: Fields, longest: nat)
    ensures (forall i :: 0 <= i < |RULE_ORDER| ==> Satisfies(f, RULE_ORDER[i], longest)) <==>
      forall rule: Rule :: Satisfies(f, rule, longest)
  {
    if forall i :: 0 <= i < |RULE_ORDER| ==> Satisfies(f, RULE_ORDER[i], longest) {
      forall rule: Rule
        ensures Satisfies(f, rule, longest)
      {
        var i := RuleIndex(rule);
      }
    }
  }

  /** Everything a body must be for the routes to go on to the database. */
  ghost predicate Acceptable(c: Candidate, longest: nat) {
    && (forall k: Key :: Present(c, k))
    && forall rule: Rule :: Satisfies(FieldsOf(c), rule, longest)
  }

  /**
   * The selection at the head of the POST and PUT routes, as written: the
   * presence message when a field is missing or empty, otherwise what the
   * field rules as written report.
   */
  function ValidateAsWritten(c: Candidate): (r: Option<string>)
    ensures !AllFieldsPresent(c) ==> r == Some(REQUIRED_MESSAGE)
    ensures r == None <==> Acceptable(c, WRITTEN_LONGEST)
    ensures AllFieldsPresent(c) && r != None ==>
      exists i :: FirstBroken(FieldsOf(c), i, WRITTEN_LONGEST) && r == Some(Message(RULE_ORDER[i]))
  {
    if !AllFieldsPresent(c) then Some(REQUIRED_MESSAGE)
    else
      AllRules(FieldsOf(c), WRITTEN_LONGEST);
      FieldValidAsWritten(FieldsOf(c))
  }

  /** The same selection over the corrected field rules. */
  function Validate(c: Candidate): (r: Option<string>)
    ensures !AllFieldsPresent(c) ==> r == Some(REQUIRED_MESSAGE)
    ensures r == None <==> Acceptable(c, ANNOUNCED_LONGEST)
    ensures AllFieldsPresent(c) && r != None ==>
      exists i :: FirstBroken(FieldsOf(c), i, ANNOUNCED_LONGEST) && r == Some(Message(RULE_ORDER[i]))
  {
    if !AllFieldsPresent(c) then Some(REQUIRED_MESSAGE)
    else
      AllRules(FieldsOf(c), ANNOUNCED_LONGEST);
      FieldValid(FieldsOf(c))
  }

  /** A missing or empty field yields the presence message, whatever the other fields hold. */
  lemma MissingFieldRejected(c: Candidate, k: Key)
    requires !Present(c, k)
    ensures ValidateAsWritten(c) == Some(REQUIRED_MESSAGE)
    ensures Validate(c) == Some(REQUIRED_MESSAGE)
  {
  }

  /**
   * With the other four rules passing, the age decides: 18 to 65 inclusive
   * is accepted. As written, a 50-character name or department is reported
   * before the age is looked at.
   */
  lemma AgeDecides(f: Fields)
    requires NameShape(f.name) && NameShape(f.department) && EmailShape(f.email)
    requires f.gender == "Male" || f.gender == "Female"
    ensures FieldValid(f) == None <==> 18 <= f.age <= 65
    ensures FieldValid(f) != None ==> FieldValid(f) == Some(Message(AgeRule))
    ensures FieldValidAsWritten(f) ==
      if |f.name| == 50 then Some(Message(NameRule))
      else if |f.department| == 50 then Some(Message(DepartmentRule))
      else FieldValid(f)
  {
    assert Satisfies(f, RULE_ORDER[0], ANNOUNCED_LONGEST) && Satisfies(f, RULE_ORDER[1], ANNOUNCED_LONGEST);
    assert Satisfies(f, RULE_ORDER[2], ANNOUNCED_LONGEST) && Satisfies(f, RULE_ORDER[3], ANNOUNCED_LONGEST);
    if FieldValid(f) != None {
      var i :| FirstBroken(f, i, ANNOUNCED_LONGEST) && FieldValid(f) == Some(Message(RULE_ORDER[i]));
      assert i == 4;
    }
    MatchNameCorrect(f.name);
    MatchNameCorrect(f.department);
    ChainsAgree(f);
  }

  /** Gender is compared case-sensitively with the two listed values. */
  lemma GenderCaseSensitive(f: Fields)
    requires NameShape(f.name) && NameShape(f.department) && EmailShape(f.email)
    requires f.gender == "male"
    ensures FieldValid(f) == Some(Message(GenderRule))
    ensures FieldValidAsWritten(f) ==
      if |f.name| == 50 then Some(Message(NameRule))
      else if |f.department| == 50 then Some(Message(DepartmentRule))
      else Some(Message(GenderRule))
  {
    assert Satisfies(f, RULE_ORDER[0], ANNOUNCED_LONGEST) && Satisfies(f, RULE_ORDER[1], ANNOUNCED_LONGEST);
    assert Satisfies(f, RULE_ORDER[2], ANNOUNCED_LONGEST);
    assert !Satisfies(f, RULE_ORDER[3], ANNOUNCED_LONGEST);
    assert FieldValid(f) != None;
    var i :| FirstBroken(f, i, ANNOUNCED_LONGEST) && FieldValid(f) == Some(Message(RULE_ORDER[i]));
    assert 0 <= i < |RULE_ORDER| == 5;
    MatchNameCorrect(f.name);
    MatchNameCorrect(f.department);
    ChainsAgree(f);
  }
}
