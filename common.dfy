/** Values shared by the browser client and the two servers. */
module Common {

  /** A value that stored data may lack (a missing JSON property). */
  datatype Option<T> = None | Some(value: T) {
    /** The value, or `default` when missing (JavaScript's `x || default` on a number or array). */
    function GetOr(default: T): T {
      match this
      case Some(v) => v
      case None => default
    }
  }

  /** One snapshot of a student's log: time, cycle-local points, reason. */
  datatype Entry = Entry(t: int, points: int, reason: string)

  /** The sort key of `ORDER BY t`. */
  function EntryTime(e: Entry): int {
    e.t
  }

  /**
   * A student record as the browser client keeps it in local storage.
   * `rewards` and `history` may be missing in stored data.
   */
  datatype Student = Student(id: string, name: string, points: nat, rewards: Option<nat>, history: Option<seq<Entry>>)

  /** `s.rewards || 0` */
  function RewardsOf(s: Student): (r: nat)
    ensures s.rewards.Some? ==> r == s.rewards.value
    ensures r == 0 <==> s.rewards == None || s.rewards == Some(0)
  {
    s.rewards.GetOr(0)
  }

  /** `s.history || []` */
  function HistoryOf(s: Student): (h: seq<Entry>)
    ensures s.history.Some? ==> h == s.history.value
    ensures h == [] <==> s.history == None || s.history == Some([])
  {
    s.history.GetOr([])
  }
}
