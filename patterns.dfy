/** The recognisers of `handle_rule_based_query`, each a literal phrase or one of
    its small regular expressions, tried on the lower-cased query in source order. */
module Patterns {
  import opened Options
  import opened Text

  /** What a recogniser extracts from the query. */
  datatype Request =
    | AverageSalary(department: Option<string>)
    | JoinedBefore(phrase: string)
    | JoinedBetween(startPhrase: string, endPhrase: string)
    | JoinedAfter(phrase: string)
    | JoinedInYear(year: nat)
    | ExitedLastYear
    | ActiveHeadcount
    | ActiveListing
    | CountByDepartment
    | ExitedInYear(exitYear: Option<nat>)
    | DepartmentsAbove(threshold: nat)
    | TopDepartments(n: nat)

  /** The recognisers, one per branch of the handler. */
  datatype Rule =
    | AverageSalaryRule
    | JoinedBeforeRule
    | JoinedBetweenRule
    | JoinedAfterRule
    | JoinedInYearRule
    | ExitedLastYearRule
    | ActiveHeadcountRule
    | ActiveListingRule
    | CountByDepartmentRule
    | ExitedInYearRule
    | DepartmentsAboveRule
    | TopDepartmentsRule

  /** The order in which the handler tries them. */
  const Catalogue: seq<Rule> := [
    AverageSalaryRule, JoinedBeforeRule, JoinedBetweenRule, JoinedAfterRule,
    JoinedInYearRule, ExitedLastYearRule, ActiveHeadcountRule, ActiveListingRule,
    CountByDepartmentRule, ExitedInYearRule, DepartmentsAboveRule, TopDepartmentsRule]

  /** The rule whose recogniser produces a request of this kind. */
  function RuleOf(r: Request): Rule {
    match r
    case AverageSalary(_) => AverageSalaryRule
    case JoinedBefore(_) => JoinedBeforeRule
    case JoinedBetween(_, _) => JoinedBetweenRule
    case JoinedAfter(_) => JoinedAfterRule
    case JoinedInYear(_) => JoinedInYearRule
    case ExitedLastYear => ExitedLastYearRule
    case ActiveHeadcount => ActiveHeadcountRule
    case ActiveListing => ActiveListingRule
    case CountByDepartment => CountByDepartmentRule
    case ExitedInYear(_) => ExitedInYearRule
    case DepartmentsAbove(_) => DepartmentsAboveRule
    case TopDepartments(_) => TopDepartmentsRule
  }

  /** `re.search(pattern, q)` for a pattern whose match at position `i` is `at(i)`:
      the groups of the leftmost match, found by the same leftmost scan as the
      if-chain over the recognisers, over the positions `0 .. |q|`. */
  function Search<T>(q: string, at: nat -> Option<T>): Option<T> {
    match First(|q| + 1, at, 0)
    case Some((_, t)) => Some(t)
    case None => None
  }

  /** `re.search` finds nothing exactly when the pattern matches nowhere, and
      otherwise reports the leftmost match. */
  lemma SearchSpec<T>(q: string, at: nat -> Option<T>)
    ensures var r := Search(q, at);
      && (r.None? <==> forall i :: 0 <= i <= |q| ==> at(i).None?)
      && (r.Some? ==> exists i :: 0 <= i <= |q| && at(i) == r && forall j :: 0 <= j < i ==> at(j).None?)
  {
    FirstSpec(|q| + 1, at, 0);
    var f := First(|q| + 1, at, 0);
    if f.Some? {
      assert at(f.value.0) == Search(q, at);
    }
  }

  /** `average salary(?: in ([a-zA-Z ]+))?` at `i`: the optional group is the
      longest run of letters and spaces after " in ". */
  function AverageSalaryAt(q: string, i: nat): Option<Option<string>> {
    var j := i + |"average salary"|;
    if !StartsAt(q, i, "average salary") then None
    else if StartsAt(q, j, " in ") && j + 4 < |q| && IsDepartmentChar(q[j + 4]) then
      Some(Some(TakeWhile(q[j + 4..], IsDepartmentChar)))
    else Some(None)
  }

  /** `<lit>(.+)` at `i`: the rest of the line after the literal, at least one character. */
  function RestOfLineAt(q: string, i: nat, lit: string): Option<string> {
    var k := i + |lit|;
    if StartsAt(q, i, lit) && k < |q| && NotNewline(q[k]) then Some(TakeWhile(q[k..], NotNewline))
    else None
  }

  /** `(.+?) and (.+)` with the lazy group starting at `k` and tried with its end
      at `m`, `m + 1`, ...: the shortest first group followed by " and " and a
      non-empty rest of the line. */
  function LazySplit(q: string, k: nat, m: nat): Option<(string, string)>
    requires k < m
    decreases |q| + 1 - m
  {
    if m > |q| || !NotNewline(q[m - 1]) then None
    else if StartsAt(q, m, " and ") && m + 5 < |q| && NotNewline(q[m + 5]) then
      Some((q[k..m], TakeWhile(q[m + 5..], NotNewline)))
    else LazySplit(q, k, m + 1)
  }

  /** `joined between (.+?) and (.+)` at `i` */
  function BetweenAt(q: string, i: nat): Option<(string, string)> {
    var k := i + |"joined between "|;
    if StartsAt(q, i, "joined between ") then LazySplit(q, k, k + 1) else None
  }

  /** `(\d{4})` at `i` */
  function FourDigitsAt(q: string, i: nat): Option<nat> {
    if i + 4 <= |q| && AllDigits(q[i..i + 4]) then Some(Value(q[i..i + 4])) else None
  }

  /** `joined in (\d{4})` at `i` */
  function JoinedInAt(q: string, i: nat): Option<nat> {
    if StartsAt(q, i, "joined in ") then FourDigitsAt(q, i + |"joined in "|) else None
  }

  /** `<lit>(\d+)` at `i`: the longest run of digits after the literal. */
  function NumberAfterAt(q: string, i: nat, lit: string): Option<nat> {
    var k := i + |lit|;
    if StartsAt(q, i, lit) && k < |q| && IsDigit(q[k]) then Some(Value(TakeWhile(q[k..], IsDigit)))
    else None
  }

  /** `top (\d+) departments` at `i` */
  function TopAt(q: string, i: nat): Option<nat> {
    var k := i + |"top "|;
    if StartsAt(q, i, "top ") && k < |q| && IsDigit(q[k]) then
      var digits := TakeWhile(q[k..], IsDigit);
      if StartsAt(q, k + |digits|, " departments") then Some(Value(digits)) else None
    else None
  }

  const LastYearPhrases: seq<string> := [
    "employees exited in the last 12 months",
    "employees left in the last 12 months",
    "who exited in the past year",
    "who exited during the past year",
    "employees who exited in the last year",
    "who left in the last 12 months",
    "employees resigned in the last 365 days",
    "resigned in the last 365 days"]

  const ActiveListingPhrases: seq<string> := [
    "list all active employees",
    "list of active employees",
    "who are the active employees",
    "show active employees"]

  /** `re.search(r"average salary(?: in ([a-zA-Z ]+))?", q)`: the optional
      department group of the first match. */
  function AverageSalaryMatch(q: string): Option<Option<string>> {
    Search(q, (i: nat) => AverageSalaryAt(q, i))
  }

  /** `re.search(r"joined before (.+)", q)` */
  function JoinedBeforeMatch(q: string): Option<string> {
    Search(q, (i: nat) => RestOfLineAt(q, i, "joined before "))
  }

  /** `re.search(r"joined between (.+?) and (.+)", q)` */
  function JoinedBetweenMatch(q: string): Option<(string, string)> {
    Search(q, (i: nat) => BetweenAt(q, i))
  }

  /** `re.search(r"joined after (.+)", q)` */
  function JoinedAfterMatch(q: string): Option<string> {
    Search(q, (i: nat) => RestOfLineAt(q, i, "joined after "))
  }

  /** `re.search(r"joined in (\d{4})", q)` */
  function JoinedInYearMatch(q: string): Option<nat> {
    Search(q, (i: nat) => JoinedInAt(q, i))
  }

  predicate MentionsLastYear(q: string) {
    exists p :: p in LastYearPhrases && Contains(q, p)
  }

  predicate AsksActiveHeadcount(q: string) {
    Contains(q, "how many employees") && (Contains(q, "currently active") || Contains(q, "still active"))
  }

  predicate AsksActiveListing(q: string) {
    exists p :: p in ActiveListingPhrases && Contains(q, p)
  }

  predicate AsksCountByDepartment(q: string) {
    Contains(q, "employee count by department") || Contains(q, "count by department")
  }

  predicate AsksExitCount(q: string) {
    Contains(q, "how many employees left in") || Contains(q, "how many employees exited in")
  }

  /** `re.search(r"(\d{4})", q)`: the first run of four digits anywhere in
      the query, absent when there is none. */
  function FirstFourDigits(q: string): (y: Option<nat>)
    ensures y.None? <==> forall i :: 0 <= i <= |q| ==> FourDigitsAt(q, i).None?
    ensures y.Some? ==> exists i :: 0 <= i <= |q| && FourDigitsAt(q, i) == y
                          && forall j :: 0 <= j < i ==> FourDigitsAt(q, j).None?
  {
    var at := (i: nat) => FourDigitsAt(q, i);
    assert forall i: nat :: at(i) == FourDigitsAt(q, i);
    SearchSpec(q, at);
    Search(q, at)
  }

  /** `re.search(r"departments with more than (\d+)", q)` */
  function DepartmentsAboveMatch(q: string): Option<nat> {
    Search(q, (i: nat) => NumberAfterAt(q, i, "departments with more than "))
  }

  /** `re.search(r"top (\d+) departments", q)` */
  function TopDepartmentsMatch(q: string): Option<nat> {
    Search(q, (i: nat) => TopAt(q, i))
  }

  /** Recogniser `rule` applied to the lower-cased query `q`: the request it
      extracts, or `None` when its trigger does not occur. */
  function Recognise(rule: Rule, q: string): (r: Option<Request>)
    ensures r.Some? ==> RuleOf(r.value) == rule
  {
    match rule
    case AverageSalaryRule =>
      (match AverageSalaryMatch(q) case Some(d) => Some(AverageSalary(d)) case None => None)
    case JoinedBeforeRule =>
      (match JoinedBeforeMatch(q) case Some(phrase) => Some(JoinedBefore(phrase)) case None => None)
    case JoinedBetweenRule =>
      (match JoinedBetweenMatch(q) case Some((s, t)) => Some(JoinedBetween(s, t)) case None => None)
    case JoinedAfterRule =>
      (match JoinedAfterMatch(q) case Some(phrase) => Some(JoinedAfter(phrase)) case None => None)
    case JoinedInYearRule =>
      (match JoinedInYearMatch(q) case Some(year) => Some(JoinedInYear(year)) case None => None)
    case ExitedLastYearRule => if MentionsLastYear(q) then Some(ExitedLastYear) else None
    case ActiveHeadcountRule => if AsksActiveHeadcount(q) then Some(ActiveHeadcount) else None
    case ActiveListingRule => if AsksActiveListing(q) then Some(ActiveListing) else None
    case CountByDepartmentRule => if AsksCountByDepartment(q) then Some(CountByDepartment) else None
    case ExitedInYearRule => if AsksExitCount(q) then Some(ExitedInYear(FirstFourDigits(q))) else None
    case DepartmentsAboveRule =>
      (match DepartmentsAboveMatch(q) case Some(n) => Some(DepartmentsAbove(n)) case None => None)
    case TopDepartmentsRule =>
      (match TopDepartmentsMatch(q) case Some(n) => Some(TopDepartments(n)) case None => None)
  }

  function Candidate(q: string, k: nat): Option<Request> {
    if k < |Catalogue| then Recognise(Catalogue[k], q) else None
  }

  /** The handler's if-chain: the position in the catalogue of the first
      recogniser that fires on `q`, with its request; nothing exactly when no
      recogniser fires. */
  function Classify(q: string): (r: Option<(nat, Request)>)
    ensures r.None? <==> forall k :: 0 <= k < |Catalogue| ==> Recognise(Catalogue[k], q).None?
    ensures r.Some? ==>
      var (k, req) := r.value;
      && k < |Catalogue|
      && Recognise(Catalogue[k], q) == Some(req)
      && RuleOf(req) == Catalogue[k]
      && forall j :: 0 <= j < k ==> Recognise(Catalogue[j], q).None?
  {
    var at := (k: nat) => Candidate(q, k);
    assert forall k: nat :: at(k) == Candidate(q, k);
    assert forall k :: 0 <= k < |Catalogue| ==> Candidate(q, k) == Recognise(Catalogue[k], q);
    FirstSpec(|Catalogue|, at, 0);
    First(|Catalogue|, at, 0)
  }

  /** A recogniser that fires bounds the position of the one chosen: everything
      later in the catalogue is shadowed. */
  lemma ChosenNoLaterThan(q: string, k: nat)
    requires k < |Catalogue| && Recognise(Catalogue[k], q).Some?
    ensures Classify(q).Some? && Classify(q).value.0 <= k
  {
  }

  /** A recogniser that fires after every earlier one failed is the one chosen. */
  lemma ChosenAt(q: string, k: nat)
    requires k < |Catalogue| && Recognise(Catalogue[k], q).Some?
    requires forall j :: 0 <= j < k ==> Recognise(Catalogue[j], q).None?
    ensures Classify(q) == Some((k, Recognise(Catalogue[k], q).value))
  {
    ChosenNoLaterThan(q, k);
  }
}
