/** The activity report record and the blank record the form starts from. */
module Report {

  datatype Option<T> = None | Some(value: T)

  /** One activity report, with the fields in the order the component declares them.
      `customActivityType` is optional in the component, but every use of it treats a
      missing value exactly like the empty string, so it is a plain string here. */
  datatype ActivityReport = ActivityReport(
    id: string,
    timestamp: int,
    year1: string,
    year2: string,
    department: string,
    iqacDocNo: string,
    activityTitle: string,
    coordinatorName: string,
    date: string,
    venue: string,
    time: string,
    timePeriod: string,
    participants: string,
    nature: string,
    activityType: string,
    customActivityType: string,
    schedule: string,
    fundingSource: string,
    amount: nat,
    chiefGuest: string,
    topic: string,
    objectives: string,
    methodology: string,
    outcomes: string,
    documentation: map<string, bool>,
    footerIqacDoc: string,
    attributeName: string,
    deptFileNo: string,
    iqacFileNo: string,
    teacherName: string,
    teacherDate: string,
    headName: string,
    headDate: string,
    icPrincipalName: string,
    icPrincipalDate: string,
    iqacCoordinator: string,
    iqacDate: string)

  /** The record the form is initialised with and the one Clear Form restores:
      never saved (empty id, timestamp 0), morning time period, zero amount,
      nothing ticked, every other text field empty. */
  const DefaultReport: ActivityReport := ActivityReport(
    id := "",
    timestamp := 0,
    year1 := "",
    year2 := "",
    department := "",
    iqacDocNo := "",
    activityTitle := "",
    coordinatorName := "",
    date := "",
    venue := "",
    time := "",
    timePeriod := "AM",
    participants := "",
    nature := "",
    activityType := "",
    customActivityType := "",
    schedule := "",
    fundingSource := "",
    amount := 0,
    chiefGuest := "",
    topic := "",
    objectives := "",
    methodology := "",
    outcomes := "",
    documentation := map[],
    footerIqacDoc := "",
    attributeName := "",
    deptFileNo := "",
    iqacFileNo := "",
    teacherName := "",
    teacherDate := "",
    headName := "",
    headDate := "",
    icPrincipalName := "",
    icPrincipalDate := "",
    iqacCoordinator := "",
    iqacDate := "")

  /** Some record of `s` carries the id `id`. */
  predicate HasId(s: seq<ActivityReport>, id: string)
  {
    exists i :: 0 <= i < |s| && s[i].id == id
  }

  /** No two records of `s` share an id. */
  predicate UniqueIds(s: seq<ActivityReport>)
  {
    forall i, j :: 0 <= i < j < |s| ==> s[i].id != s[j].id
  }

  /** Every record carries an id. */
  predicate NonEmptyIds(s: seq<ActivityReport>)
  {
    forall i :: 0 <= i < |s| ==> s[i].id != ""
  }
}
