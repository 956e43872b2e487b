/** `handle_rule_based_query(query, df)`: lower-case the query, find the first
    recogniser that fires, and answer from the employee table; `Unhandled` is
    the `None` that hands the query on to the language model. */
module QueryHandler {
  import opened Options
  import opened Text
  import opened Records
  import opened Departments
  import opened DepartmentTables
  import opened Patterns

  /** Which employees an answer lists, with the bounds the handler used. */
  datatype Listing =
    | JoinedBeforeList(date: Instant)
    | JoinedBetweenList(start: Instant, end: Instant)
    | JoinedAfterList(date: Instant)
    | JoinedInList(year: nat)
    | ExitedWithinList(from: Instant, to: Instant)
    | ActiveList

  /** The warning messages the handler returns instead of an answer. */
  datatype Fault =
    | DateParseError(phrase: string)   // the date parser rejected this phrase
    | YearNotIdentified                // no four-digit year in an exit-count query
    | SalaryNotInteger                 // `int()` of a missing salary, caught by the outer handler

  /** What the handler returns, without its wording. */
  datatype Answer =
    | Average(department: Option<string>, mean: Option<real>)
    | NoSalaryData(name: string)
    | Employees(listing: Listing, rows: seq<Employee>)
    | ActiveCount(count: nat)
    | ExitCount(exitYear: nat, exits: nat)
    | Table(counts: seq<DepartmentCount>)
    | Error(fault: Fault)
    | Unhandled

  // The row masks of the handler, over the instants the date columns stand for.

  function SalaryInDepartment(key: string): Employee -> bool {
    (e: Employee) => Lower(e.department) == key && HasSalary(e)
  }

  function JoinedBeforeMask(at: Instant): Employee -> bool {
    (e: Employee) => Midnight(e.joined) < at
  }

  function JoinedBetweenMask(start: Instant, end: Instant): Employee -> bool {
    (e: Employee) => start <= Midnight(e.joined) && Midnight(e.joined) <= end
  }

  function JoinedAfterMask(at: Instant): Employee -> bool {
    (e: Employee) => Midnight(e.joined) > at
  }

  function JoinedInMask(year: nat): Employee -> bool {
    (e: Employee) => YearOfDay(e.joined) == year
  }

  function ExitedWithinMask(from: Instant, to: Instant): Employee -> bool {
    (e: Employee) => e.exited.Some? && from <= Midnight(e.exited.value) && Midnight(e.exited.value) <= to
  }

  function ExitedInMask(year: nat): Employee -> bool {
    (e: Employee) => e.exited.Some? && YearOfDay(e.exited.value) == year
  }

  /** The average-salary branch for a named department. */
  function DepartmentAverage(d: string, table: seq<Employee>): Answer {
    var name := Capitalize(d);
    var rows := Filter(table, SalaryInDepartment(Lower(name)));
    if rows == [] then NoSalaryData(name) else Average(Some(name), MeanSalary(rows))
  }

  /** The twelve-month exit listing; listing a row with no salary fails. */
  function ExitedLastYearAnswer(table: seq<Employee>, now: Instant): Answer {
    var from := now - 365 * MicrosPerDay;
    var rows := Filter(table, ExitedWithinMask(from, now));
    if exists e :: e in rows && !HasSalary(e) then Error(SalaryNotInteger)
    else Employees(ExitedWithinList(from, now), rows)
  }

  /** The branch body for a recognised request. `now` is the clock reading and
      `parse` the date parser, applied to the stripped phrase. */
  function Respond(req: Request, table: seq<Employee>, now: Instant, parse: string -> Option<Instant>): (a: Answer)
    ensures a != Unhandled
    ensures a.Table? <==> req.CountByDepartment? || req.DepartmentsAbove? || req.TopDepartments?
    ensures a.ExitCount? || a == Error(YearNotIdentified) <==> req.ExitedInYear?
    ensures a.Error? && a.fault.DateParseError? ==> req.JoinedBefore? || req.JoinedBetween? || req.JoinedAfter?
  {
    match req
    case AverageSalary(None) => Average(None, MeanSalary(table))
    case AverageSalary(Some(d)) => DepartmentAverage(d, table)
    case JoinedBefore(phrase) =>
      var s := Strip(phrase);
      (match parse(s)
       case None => Error(DateParseError(s))
       case Some(at) => Employees(JoinedBeforeList(at), Filter(table, JoinedBeforeMask(at))))
    case JoinedBetween(startPhrase, endPhrase) =>
      var s := Strip(startPhrase);
      var t := Strip(endPhrase);
      (match parse(s)
       case None => Error(DateParseError(s))
       case Some(start) =>
         match parse(t)
         case None => Error(DateParseError(t))
         case Some(end) => Employees(JoinedBetweenList(start, end), Filter(table, JoinedBetweenMask(start, end))))
    case JoinedAfter(phrase) =>
      var s := Strip(phrase);
      (match parse(s)
       case None => Error(DateParseError(s))
       case Some(at) => Employees(JoinedAfterList(at), Filter(table, JoinedAfterMask(at))))
    case JoinedInYear(year) => Employees(JoinedInList(year), Filter(table, JoinedInMask(year)))
    case ExitedLastYear => ExitedLastYearAnswer(table, now)
    case ActiveHeadcount => ActiveCount(|Filter(table, IsActive)|)
    case ActiveListing => Employees(ActiveList, Filter(table, IsActive))
    case CountByDepartment => Table(ValueCounts(table))
    case ExitedInYear(None) => Error(YearNotIdentified)
    case ExitedInYear(Some(year)) => ExitCount(year, |Filter(table, ExitedInMask(year))|)
    case DepartmentsAbove(threshold) => Table(MoreThan(table, threshold))
    case TopDepartments(n) => Table(Top(table, n))
  }

  /** The whole handler: the answer of the first recogniser that fires on the
      lower-cased query, and `Unhandled` exactly when none does. */
  function Dispatch(query: string, table: seq<Employee>, now: Instant, parse: string -> Option<Instant>): (a: Answer)
    ensures a == Unhandled <==> forall k :: 0 <= k < |Catalogue| ==> Recognise(Catalogue[k], Lower(query)).None?
    ensures a != Unhandled ==>
      exists k, req ::
        && 0 <= k < |Catalogue|
        && Recognise(Catalogue[k], Lower(query)) == Some(req)
        && (forall j :: 0 <= j < k ==> Recognise(Catalogue[j], Lower(query)).None?)
        && a == Respond(req, table, now, parse)
  {
    match Classify(Lower(query))
    case None => Unhandled
    case Some((_, req)) => Respond(req, table, now, parse)
  }

  /** "How many employees left in the last 12 months" is caught by the
      twelve-month listing (or an earlier branch) before the exit-count branch,
      whose trigger it also contains: it never gets an exit count. */
  lemma LastTwelveMonthsShadowsExitCount(query: string, table: seq<Employee>, now: Instant, parse: string -> Option<Instant>)
    requires Contains(Lower(query), "how many employees left in the last 12 months")
    ensures Recognise(ExitedInYearRule, Lower(query)).Some?
    ensures Recognise(Catalogue[5], Lower(query)).Some?
    ensures var a := Dispatch(query, table, now, parse);
      a != Unhandled && !a.ExitCount? && a != Error(YearNotIdentified)
  {
    var q := Lower(query);
    BothExitTriggersFire(q);
    ChosenBeforeExitCount(q);
  }

  /** When the twelve-month recogniser fires, the request chosen is not an
      exit count. */
  lemma ChosenBeforeExitCount(q: string)
    requires Recognise(Catalogue[5], q).Some?
    ensures Classify(q).Some? && !Classify(q).value.1.ExitedInYear?
  {
    ChosenNoLaterThan(q, 5);
    EarlyRules(Classify(q).value.0);
  }

  lemma EarlyRules(k: nat)
    requires k <= 5
    ensures Catalogue[k] != ExitedInYearRule
  {
  }

  lemma BothExitTriggersFire(q: string)
    requires Contains(q, "how many employees left in the last 12 months")
    ensures Recognise(ExitedInYearRule, q).Some?
    ensures Recognise(Catalogue[5], q).Some?
  {
    ExitCountTriggerInside(q);
    TwelveMonthPhraseInside(q);
    assert LastYearPhrases[1] in LastYearPhrases;
  }

  /** The question starts with the exit-count trigger. */
  lemma ExitCountTriggerLeads()
    ensures "how many employees left in the last 12 months" == "how many employees left in" + " the last 12 months"
  {
  }

  /** The question ends with a twelve-month phrase. */
  lemma TwelveMonthPhraseEnds()
    ensures "how many employees left in the last 12 months" == "how many " + "employees left in the last 12 months"
  {
  }

  /** The query contains the exit-count trigger. */
  lemma ExitCountTriggerInside(q: string)
    requires Contains(q, "how many employees left in the last 12 months")
    ensures Contains(q, "how many employees left in")
  {
    ExitCountTriggerLeads();
    ContainsParts(q, "how many employees left in", " the last 12 months");
  }

  /** The query contains one of the twelve-month phrases. */
  lemma TwelveMonthPhraseInside(q: string)
    requires Contains(q, "how many employees left in the last 12 months")
    ensures Contains(q, "employees left in the last 12 months")
  {
    TwelveMonthPhraseEnds();
    ContainsParts(q, "how many ", "employees left in the last 12 months");
  }

  /** Overall average: the mean over the rows that have a salary; `None` (NaN)
      exactly when no row has one. */
  lemma AverageSalaryOverallSpec(table: seq<Employee>, now: Instant, parse: string -> Option<Instant>)
    ensures var a := Respond(AverageSalary(None), table, now, parse);
      && a == Average(None, MeanSalary(Filter(table, HasSalary)))
      && (a.mean.None? <==> forall e :: e in table ==> !HasSalary(e))
  {
    SalaryValuesFilter(table);
  }

  /** Missing salaries do not take part in a mean. */
  lemma {:induction false} SalaryValuesFilter(rows: seq<Employee>)
    ensures SalaryValues(Filter(rows, HasSalary)) == SalaryValues(rows)
  {
    if rows != [] {
      SalaryValuesFilter(rows[1..]);
    }
  }

  /** Average for a named department: the department name is matched without
      regard to case; the answer is "no data" exactly when no row of that
      department has a salary, and otherwise the mean over those rows. */
  lemma AverageSalaryDepartmentSpec(d: string, table: seq<Employee>, now: Instant, parse: string -> Option<Instant>)
    ensures var name := Capitalize(d);
      var a := Respond(AverageSalary(Some(d)), table, now, parse);
      && (a == NoSalaryData(name) <==> forall e :: e in table && Lower(e.department) == Lower(d) ==> !HasSalary(e))
      && forall rows :: Selects(rows, table, SalaryInDepartment(Lower(d))) ==>
           a == if rows == [] then NoSalaryData(name) else Average(Some(name), MeanSalary(rows))
  {
    LowerCapitalize(d);
    var rows := Filter(table, SalaryInDepartment(Lower(d)));
    FilterSelects(table, SalaryInDepartment(Lower(d)));
    SelectsMembers(rows, table, SalaryInDepartment(Lower(d)));
    forall other | Selects(other, table, SalaryInDepartment(Lower(d))) ensures other == rows {
      SelectsIsFilter(other, table, SalaryInDepartment(Lower(d)));
    }
    if rows != [] {
      assert rows[0] in rows;
    }
  }

  /** Before a date: a parse failure is reported with the stripped phrase;
      otherwise the rows that joined on an earlier day, or on that very day
      when the parsed instant is past midnight. */
  lemma JoinedBeforeSpec(phrase: string, table: seq<Employee>, now: Instant, parse: string -> Option<Instant>)
    ensures var s := Strip(phrase);
      var a := Respond(JoinedBefore(phrase), table, now, parse);
      match parse(s)
      case None => a == Error(DateParseError(s))
      case Some(at) =>
        && a.Employees? && a.listing == JoinedBeforeList(at)
        && Selects(a.rows, table, (e: Employee) => e.joined < DayOf(at) || (e.joined == DayOf(at) && TimeOfDay(at) > 0))
  {
    var s := Strip(phrase);
    if parse(s).Some? {
      var at := parse(s).value;
      var byDay := (e: Employee) => e.joined < DayOf(at) || (e.joined == DayOf(at) && TimeOfDay(at) > 0);
      forall e ensures JoinedBeforeMask(at)(e) == byDay(e) {
        MidnightBefore(e.joined, at);
      }
      FilterSelects(table, JoinedBeforeMask(at));
      SelectsAgree(Filter(table, JoinedBeforeMask(at)), table, JoinedBeforeMask(at), byDay);
    }
  }

  /** Between two dates: the start phrase is parsed first and its failure
      reported first; both bounds are inclusive at the instant level and are
      not reordered, so a start later than the end selects no one. */
  lemma JoinedBetweenSpec(startPhrase: string, endPhrase: string, table: seq<Employee>, now: Instant, parse: string -> Option<Instant>)
    ensures var s := Strip(startPhrase);
      var t := Strip(endPhrase);
      var a := Respond(JoinedBetween(startPhrase, endPhrase), table, now, parse);
      match parse(s)
      case None => a == Error(DateParseError(s))
      case Some(start) =>
        match parse(t)
        case None => a == Error(DateParseError(t))
        case Some(end) =>
          && a.Employees? && a.listing == JoinedBetweenList(start, end)
          && Selects(a.rows, table, (e: Employee) =>
               (DayOf(start) < e.joined || (e.joined == DayOf(start) && TimeOfDay(start) == 0))
               && e.joined <= DayOf(end))
          && (start > end ==> a.rows == [])
  {
    var s := Strip(startPhrase);
    var t := Strip(endPhrase);
    if parse(s).Some? && parse(t).Some? {
      var start := parse(s).value;
      var end := parse(t).value;
      var byDay := (e: Employee) =>
        (DayOf(start) < e.joined || (e.joined == DayOf(start) && TimeOfDay(start) == 0))
        && e.joined <= DayOf(end);
      forall e ensures JoinedBetweenMask(start, end)(e) == byDay(e) {
        MidnightBefore(e.joined, start);
        MidnightAfter(e.joined, end);
      }
      var rows := Filter(table, JoinedBetweenMask(start, end));
      FilterSelects(table, JoinedBetweenMask(start, end));
      SelectsAgree(rows, table, JoinedBetweenMask(start, end), byDay);
    }
  }

  /** After a date: a parse failure is reported with the stripped phrase;
      otherwise the rows that joined on a later day. */
  lemma JoinedAfterSpec(phrase: string, table: seq<Employee>, now: Instant, parse: string -> Option<Instant>)
    ensures var s := Strip(phrase);
      var a := Respond(JoinedAfter(phrase), table, now, parse);
      match parse(s)
      case None => a == Error(DateParseError(s))
      case Some(at) =>
        a.Employees? && a.listing == JoinedAfterList(at)
        && Selects(a.rows, table, (e: Employee) => e.joined > DayOf(at))
  {
    var s := Strip(phrase);
    if parse(s).Some? {
      var at := parse(s).value;
      var byDay := (e: Employee) => e.joined > DayOf(at);
      forall e ensures JoinedAfterMask(at)(e) == byDay(e) {
        MidnightAfter(e.joined, at);
      }
      FilterSelects(table, JoinedAfterMask(at));
      SelectsAgree(Filter(table, JoinedAfterMask(at)), table, JoinedAfterMask(at), byDay);
    }
  }

  /** Joined in a year: the rows whose join day falls in that calendar year. */
  lemma JoinedInYearSpec(year: nat, table: seq<Employee>, now: Instant, parse: string -> Option<Instant>)
    ensures var a := Respond(JoinedInYear(year), table, now, parse);
      a.Employees? && a.listing == JoinedInList(year)
      && Selects(a.rows, table, (e: Employee) => YearOfDay(e.joined) == year)
  {
    FilterSelects(table, JoinedInMask(year));
    SelectsAgree(Filter(table, JoinedInMask(year)), table, JoinedInMask(year), (e: Employee) => YearOfDay(e.joined) == year);
  }

  /** The twelve-month exits: the window runs from 365 days before the clock
      to the clock, so it covers the last 365 days up to today and the day
      365 days back only when the clock reads exactly midnight. The answer
      fails exactly when a row in the window has no salary. */
  lemma ExitedLastYearSpec(table: seq<Employee>, now: Instant, parse: string -> Option<Instant>)
    ensures var a := Respond(ExitedLastYear, table, now, parse);
      var byDay := (e: Employee) =>
        e.exited.Some?
        && (DayOf(now) - 365 < e.exited.value <= DayOf(now)
            || (e.exited.value == DayOf(now) - 365 && TimeOfDay(now) == 0));
      && (a == Error(SalaryNotInteger) <==> exists e :: e in table && byDay(e) && !HasSalary(e))
      && (a != Error(SalaryNotInteger) ==>
            a.Employees? && a.listing == ExitedWithinList(now - 365 * MicrosPerDay, now)
            && Selects(a.rows, table, byDay))
  {
    var from := now - 365 * MicrosPerDay;
    var mask := ExitedWithinMask(from, now);
    var byDay := (e: Employee) =>
      e.exited.Some?
      && (DayOf(now) - 365 < e.exited.value <= DayOf(now)
          || (e.exited.value == DayOf(now) - 365 && TimeOfDay(now) == 0));
    forall e ensures mask(e) == byDay(e) {
      if e.exited.Some? {
        LastYearWindow(e.exited.value, now);
      }
    }
    var rows := Filter(table, mask);
    FilterSelects(table, mask);
    SelectsAgree(rows, table, mask, byDay);
    SelectsMembers(rows, table, byDay);
  }

  /** The active headcount is the length of the active listing, and active
      and exited employees together make up the table. */
  lemma ActiveSpec(table: seq<Employee>, now: Instant, parse: string -> Option<Instant>)
    ensures var count := Respond(ActiveHeadcount, table, now, parse);
      var listing := Respond(ActiveListing, table, now, parse);
      && listing.Employees? && listing.listing == ActiveList
      && Selects(listing.rows, table, (e: Employee) => e.exited.None?)
      && count == ActiveCount(|listing.rows|)
      && count.count + |Filter(table, HasExited)| == |table|
  {
    assert Respond(ActiveHeadcount, table, now, parse) == ActiveCount(|Filter(table, IsActive)|);
    assert Respond(ActiveListing, table, now, parse) == Employees(ActiveList, Filter(table, IsActive));
    FilterSelects(table, IsActive);
    SelectsAgree(Filter(table, IsActive), table, IsActive, (e: Employee) => e.exited.None?);
    FilterPartition(table, IsActive, HasExited);
  }

  /** Exit count for a year: without a four-digit year the handler warns;
      with one, it counts the rows whose exit day falls in that year. */
  lemma ExitedInYearSpec(year: Option<nat>, table: seq<Employee>, now: Instant, parse: string -> Option<Instant>)
    ensures var a := Respond(ExitedInYear(year), table, now, parse);
      match year
      case None => a == Error(YearNotIdentified)
      case Some(y) =>
        && a.ExitCount? && a.exitYear == y
        && a.exits <= |Filter(table, HasExited)|
        && forall rows :: Selects(rows, table, ExitedInMask(y)) ==> a.exits == |rows|
  {
    if year.Some? {
      var y := year.value;
      FilterSelects(table, ExitedInMask(y));
      forall rows | Selects(rows, table, ExitedInMask(y)) ensures rows == Filter(table, ExitedInMask(y)) {
        SelectsIsFilter(rows, table, ExitedInMask(y));
      }
      FilterImplies(table, ExitedInMask(y), HasExited);
    }
  }

  /** An exit-count query that no earlier branch catches is answered for the
      first four-digit run anywhere in the query, not necessarily the one after
      "left in". */
  lemma ExitCountDispatch(query: string, table: seq<Employee>, now: Instant, parse: string -> Option<Instant>)
    requires Contains(Lower(query), "how many employees left in") || Contains(Lower(query), "how many employees exited in")
    requires forall j :: 0 <= j < 9 ==> Recognise(Catalogue[j], Lower(query)).None?
    ensures Dispatch(query, table, now, parse) == Respond(ExitedInYear(FirstFourDigits(Lower(query))), table, now, parse)
  {
    var q := Lower(query);
    assert Recognise(Catalogue[9], q) == Some(ExitedInYear(FirstFourDigits(q)));
    ChosenAt(q, 9);
  }
}
