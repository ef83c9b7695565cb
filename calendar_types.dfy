/** The record shapes and year bounds shared by the calendar view. */
module CalendarTypes {

  import opened Optional

  /** One cell of a month grid. A padding cell outside the month has no
      day and no date; a day cell has both. */
  datatype MonthCell = MonthCell(day: Option<int>, isWeekend: bool, isToday: bool, date: Option<string>)

  /** A month as week rows, each row a sequence of cells. */
  type MonthMatrix = seq<seq<MonthCell>>

  /** One month of a year view: its 0-based index, display name, year and grid. */
  datatype MonthData = MonthData(monthIndex: int, name: string, year: int, matrix: MonthMatrix)

  /** The years the calendar routes accept. */
  const MinYear: int := 1900
  const MaxYear: int := 2100

  /** The years the sidebar lists. */
  const SidebarYearStart: int := 1950
  const SidebarYearEnd: int := 2050
}
