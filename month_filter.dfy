/**
 * The "month" list filter of the admin change lists, declared twice with the
 * same lookups: once for users (backend/account/admin.py) and once for
 * schedules (backend/schedule/admin.py). The two differ only in which date
 * column they filter on.
 */
module MonthFilter {
  import opened Common
  import Decimal

  /** The Persian month names offered, in the order of the lookups '1' to '12'. */
  const MonthNames: seq<string> := [
    "دی", "بهمن", "اسفند", "فروردین", "اردیبهشت", "خرداد",
    "تیر", "مرداد", "شهریور", "مهر", "آبان", "آذر"]

  /** `lookups`: twelve (value, label) pairs, the value being the month number in decimal. */
  function Lookups(): (r: seq<(string, string)>)
    ensures |r| == 12
    ensures forall i | 0 <= i < 12 :: r[i].1 == MonthNames[i]
  {
    seq(12, i requires 0 <= i < 12 => (Decimal.Show(i + 1), MonthNames[i]))
  }

  /** Every lookup value reads back as its own month number, 1 to 12. */
  lemma LookupValuesAreMonths(i: nat)
    requires i < 12
    ensures Decimal.Parse(Lookups()[i].0) == Some(i + 1)
  {
    Decimal.ParseShow(i + 1);
  }

  /** No two lookups share a value. */
  lemma LookupValuesDistinct(i: nat, j: nat)
    requires i < j < 12
    ensures Lookups()[i].0 != Lookups()[j].0
  {
    if Lookups()[i].0 == Lookups()[j].0 {
      Decimal.ShowInjective(i + 1, j + 1);
    }
  }

  /** The date columns the filter knows about. */
  datatype DateColumn = DateJoined | ExpiryDate | StartDate | ScheduleDate

  /** A row of a change list: its key, and the value of each date column it has that is not null. */
  datatype Row = Row(id: nat, dates: map<DateColumn, Date>)

  /** The users' filter tries these columns in turn. */
  const UserColumns: seq<DateColumn> := [DateJoined, ExpiryDate, StartDate]
  /** The schedules' filter looks only at `date`. */
  const ScheduleColumns: seq<DateColumn> := [ScheduleDate]

  /** The first column of `order` that the model declares. */
  function ChosenColumn(order: seq<DateColumn>, declared: set<DateColumn>): (r: Option<DateColumn>)
    ensures r.None? <==> forall i | 0 <= i < |order| :: order[i] !in declared
    ensures r.Some? ==> r.value in declared && r.value in order
    decreases |order|
  {
    if order == [] then None
    else if order[0] in declared then Some(order[0])
    else ChosenColumn(order[1..], declared)
  }

  /** The chosen column is the first declared one: every column before it is missing from the model. */
  lemma {:induction false} ChosenColumnIsFirst(order: seq<DateColumn>, declared: set<DateColumn>, k: nat)
    requires k < |order| && order[k] in declared
    requires forall i | 0 <= i < k :: order[i] !in declared
    ensures ChosenColumn(order, declared) == Some(order[k])
    decreases k
  {
    if k > 0 {
      assert order[0] !in declared;
      ChosenColumnIsFirst(order[1..], declared, k - 1);
    }
  }

  /** `filter(<column>__month=month)`: the rows, in order, whose column is set and falls in that month. */
  function InMonth(rows: seq<Row>, column: DateColumn, month: nat): (r: seq<Row>)
    ensures |r| <= |rows|
    ensures forall x :: x in r <==> x in rows && column in x.dates && x.dates[column].month == month
    decreases |rows|
  {
    if rows == [] then []
    else
      var x := rows[0];
      (if column in x.dates && x.dates[column].month == month then [x] else []) + InMonth(rows[1..], column, month)
  }

  /**
   * What `queryset` hands back: `None` leaves the list as it is; a filtered
   * list; or a value that is not a number, which the month lookup refuses.
   */
  datatype FilterResult = Unfiltered | Filtered(rows: seq<Row>) | BadValue

  /**
   * `MonthFilter.queryset`: no value, or an empty one, leaves the list
   * unfiltered, and so does a model with none of the columns; otherwise the
   * value is read as a month number and the first declared column is
   * filtered by it.
   */
  function Queryset(order: seq<DateColumn>, declared: set<DateColumn>, value: Option<string>, rows: seq<Row>)
    : (r: FilterResult)
    ensures value.None? || value.value == [] ==> r == Unfiltered
    ensures ChosenColumn(order, declared).None? ==> r == Unfiltered
    ensures r.BadValue? <==> value.Some? && value.value != [] && ChosenColumn(order, declared).Some?
                             && Decimal.Parse(value.value).None?
    ensures (value.Some? && value.value != [] && ChosenColumn(order, declared).Some?
             && Decimal.Parse(value.value).Some?) ==> r.Filtered?
    ensures r.Filtered? ==> r.rows == InMonth(rows, ChosenColumn(order, declared).value, Decimal.Parse(value.value).value)
  {
    if value.None? || value.value == [] then Unfiltered
    else
      match ChosenColumn(order, declared)
      case None => Unfiltered
      case Some(column) =>
        match Decimal.Parse(value.value)
        case None => BadValue
        case Some(month) => Filtered(InMonth(rows, column, month))
  }

  /** On the user model, which declares `date_joined`, the filter always uses that column. */
  lemma UsersFilterOnDateJoined(declared: set<DateColumn>, i: nat, rows: seq<Row>)
    requires DateJoined in declared && i < 12
    ensures Queryset(UserColumns, declared, Some(Lookups()[i].0), rows) == Filtered(InMonth(rows, DateJoined, i + 1))
  {
    LookupValuesAreMonths(i);
    ChosenColumnIsFirst(UserColumns, declared, 0);
  }

  /** Picking the i-th lookup on the schedule list keeps exactly the schedules dated in month i + 1. */
  lemma ScheduleLookupKeepsItsMonth(i: nat, rows: seq<Row>, x: Row)
    requires i < 12
    ensures var r := Queryset(ScheduleColumns, {ScheduleDate}, Some(Lookups()[i].0), rows);
            r.Filtered? && (x in r.rows <==> x in rows && ScheduleDate in x.dates && x.dates[ScheduleDate].month == i + 1)
  {
    LookupValuesAreMonths(i);
    assert ChosenColumn(ScheduleColumns, {ScheduleDate}) == Some(ScheduleDate);
  }
}
