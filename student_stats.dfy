/** The student dashboard endpoint: a greeting by the hour, a study-progress split
    from two random draws, the next class an hour from now, and a fixed assignment
    list. The clock (`hour`, `minute`) and the draws (`completed`, `inProgress`) are
    parameters; their ranges are those of `datetime.now()` and `random.randint`. */
module StudentDashboard {
  import opened Text
  import opened Dates

  datatype Progress = Progress(completed: int, in_progress: int, todo: int)
  datatype NextClass = NextClass(subject: string, time: string, room: string)
  datatype Assignment = Assignment(title: string, due: string, status: string)

  datatype StudentStats = StudentStats(
    greeting: string,
    user_name: string,
    stats: Progress,
    next_class: NextClass,
    assignments: seq<Assignment>)

  /** The greeting splits the day at noon and at six in the evening. */
  function Greeting(hour: int): (g: string)
    ensures g == "Good Morning" <==> hour < 12
    ensures g == "Good Afternoon" <==> 12 <= hour < 18
    ensures g == "Good Evening" <==> hour >= 18
  {
    if hour < 12 then "Good Morning"
    else if 12 <= hour < 18 then "Good Afternoon"
    else "Good Evening"
  }

  /** `strftime("%I:%M %p")`: a 12-hour clock where 0 and 12 read as 12. */
  function ClockText(hour: int, minute: int): (s: string)
    requires 0 <= hour < 24 && 0 <= minute < 60
    ensures |s| == 8 && s[2] == ':' && s[5] == ' '
  {
    Digits2(if hour % 12 == 0 then 12 else hour % 12) + ":" + Digits2(minute) + " "
      + (if hour < 12 then "AM" else "PM")
  }

  /** Reading a 12-hour clock text back as a 24-hour hour and a minute. */
  function ReadClock(s: string): (int, int)
    requires |s| == 8
  {
    var h12 := Value2(s[0], s[1]);
    ((h12 % 12) + (if s[6..8] == "PM" then 12 else 0), Value2(s[3], s[4]))
  }

  /** The three fields of a clock text sit at fixed positions. */
  lemma ClockFields(hh: string, mm: string, ap: string)
    requires |hh| == 2 && |mm| == 2 && |ap| == 2
    ensures var s := hh + ":" + mm + " " + ap;
      s[0] == hh[0] && s[1] == hh[1] && s[3] == mm[0] && s[4] == mm[1] && s[6..8] == ap
  {
    var s := hh + ":" + mm + " " + ap;
    assert s[6..8] == ap;
  }

  /** The 12-hour reading plus the afternoon offset gives back the 24-hour hour. */
  lemma HourBack(hour: int)
    requires 0 <= hour < 24
    ensures (if hour % 12 == 0 then 12 else hour % 12) % 12 + (if hour < 12 then 0 else 12) == hour
  {
  }

  /** The clock text is read back as the time it shows. */
  lemma ClockRoundTrip(hour: int, minute: int)
    requires 0 <= hour < 24 && 0 <= minute < 60
    ensures ReadClock(ClockText(hour, minute)) == (hour, minute)
  {
    var h12 := if hour % 12 == 0 then 12 else hour % 12;
    var ap := if hour < 12 then "AM" else "PM";
    var s := ClockText(hour, minute);
    assert s == Digits2(h12) + ":" + Digits2(minute) + " " + ap;
    ClockFields(Digits2(h12), Digits2(minute), ap);
    assert s[6..8] == "PM" <==> hour >= 12;
    Value2Digits2(h12);
    Value2Digits2(minute);
    HourBack(hour);
  }

  /** The three assignments shown to every student. */
  const Assignments: seq<Assignment> := [
    Assignment("Neural Networks Intro", "Today", "urgent"),
    Assignment("Database Schema Design", "Tomorrow", "normal"),
    Assignment("FastAPI Documentation", "In 2 days", "normal")]

  /** `get_student_stats`. */
  function GetStudentStats(hour: int, minute: int, completed: int, inProgress: int): (r: StudentStats)
    requires 0 <= hour < 24 && 0 <= minute < 60
    requires 50 <= completed <= 80 && 10 <= inProgress <= 30
    ensures r.user_name == "Student" && r.greeting == Greeting(hour)
    ensures r.stats.completed == completed && r.stats.in_progress == inProgress
    ensures r.stats.completed + r.stats.in_progress + r.stats.todo == 100
    ensures |r.next_class.time| == 8 && ReadClock(r.next_class.time) == ((hour + 1) % 24, minute)
    ensures r.next_class.subject == "Advanced Python AI" && r.next_class.room == "Virtual Lab A"
    ensures r.assignments == Assignments
  {
    ClockRoundTrip((hour + 1) % 24, minute);
    StudentStats(
      Greeting(hour),
      "Student",
      Progress(completed, inProgress, 100 - (completed + inProgress)),
      NextClass("Advanced Python AI", ClockText((hour + 1) % 24, minute), "Virtual Lab A"),
      Assignments)
  }

  /** The remainder lies between -10 and 40, and is negative exactly when the two
      draws together pass 100 (both at their top gives -10). */
  lemma TodoRange(hour: int, minute: int, completed: int, inProgress: int)
    requires 0 <= hour < 24 && 0 <= minute < 60
    requires 50 <= completed <= 80 && 10 <= inProgress <= 30
    ensures var todo := GetStudentStats(hour, minute, completed, inProgress).stats.todo;
      -10 <= todo <= 40 && (todo < 0 <==> completed + inProgress > 100)
    ensures GetStudentStats(hour, minute, 80, 30).stats.todo == -10
  {
  }

  /** Only the first assignment is urgent. */
  lemma OnlyFirstUrgent()
    ensures |Assignments| == 3
    ensures forall i :: 0 <= i < |Assignments| ==> (Assignments[i].status == "urgent" <==> i == 0)
  {
  }
}
