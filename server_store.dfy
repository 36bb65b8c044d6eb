/**
 * The student handlers of the two servers: server.js (SQLite tables, threshold 1000, list by
 * id) and server-sqlite.js (hosted tables, threshold 10, list by creation time). Both keep
 * a table of owned student rows and an append-only history table.
 */
module ServerStore {
  import opened Common
  import opened Accounting
  import opened Sorting

  /** Which server: the SQLite one (server.js) or the hosted-store one (server-sqlite.js). */
  datatype Variant = SqliteServer | HostedServer

  /** REWARD_THRESHOLD of each server's adjust handler. */
  function ThresholdOf(v: Variant): (t: nat)
    ensures t > 0
  {
    match v
    case SqliteServer => CLIENT_THRESHOLD
    case HostedServer => HOSTED_THRESHOLD
  }

  /** The `LIMIT` on the history rows served with a student. */
  const HISTORY_LIMIT: nat := 64

  /** A row of the `students` table. */
  datatype Row = Row(id: int, owner: int, name: string, points: nat, rewards: nat, createdAt: int)

  /** A row of the `history` table. */
  datatype HistoryRow = HistoryRow(studentId: int, entry: Entry)

  /** A student as a handler returns it: its row and the history served with it. */
  datatype StudentView = StudentView(row: Row, history: seq<Entry>)

  /** The handlers' error replies. */
  datatype Error = InvalidDelta | NotFound | NameRequired

  /** A JSON `delta`: an integer, or anything `Number.isInteger` rejects. */
  datatype Delta = Integer(value: int) | NotInteger

  datatype Result<T> = Success(value: T) | Failure(error: Error)

  /** The HTTP status each error is sent with. */
  function StatusCode(e: Error): (code: nat)
    ensures code == 404 <==> e == NotFound
    ensures code == 400 <==> e != NotFound
  {
    match e
    case NotFound => 404
    case _ => 400
  }

  /** `Math.abs` */
  function Abs(x: int): nat {
    if x < 0 then -x else x
  }

  /** `Number.isInteger(delta) && Math.abs(delta) <= 100000` */
  predicate AcceptableDelta(d: Delta)
    ensures AcceptableDelta(d) <==> d.Integer? && -(MAX_DELTA as int) <= d.value <= MAX_DELTA
  {
    d.Integer? && Abs(d.value) <= MAX_DELTA
  }

  /** `!name`: a missing or empty name. */
  predicate NameMissing(name: Option<string>)
    ensures !NameMissing(name) <==> name.Some? && |name.value| > 0
  {
    name.None? || name.value == ""
  }

  /** `reason || 'Point adjustment'`: a missing or empty reason is replaced. */
  function ReasonOrDefault(reason: Option<string>): (r: string)
    ensures r != ""
    ensures reason.Some? && reason.value != "" ==> r == reason.value
    ensures reason.None? || reason.value == "" ==> r == DEFAULT_REASON
  {
    if reason.None? || reason.value == "" then DEFAULT_REASON else reason.value
  }

  /** Sort key of `ORDER BY id DESC`. */
  function NegatedId(r: Row): int {
    -r.id
  }

  /** Sort key of `order('created_at', { ascending: false })`. */
  function NegatedCreatedAt(r: Row): int {
    -r.createdAt
  }

  /** The list order of each server. */
  function ListKey(v: Variant): (key: Row -> int)
    ensures v == SqliteServer ==> forall a: Row, b: Row :: a.id < b.id ==> key(b) < key(a)
    ensures v == HostedServer ==> forall a: Row, b: Row :: a.createdAt < b.createdAt ==> key(b) < key(a)
  {
    match v
    case SqliteServer => NegatedId
    case HostedServer => NegatedCreatedAt
  }

  predicate IdsIncreasing(rows: seq<Row>) {
    forall i, j :: 0 <= i < j < |rows| ==> rows[i].id < rows[j].id
  }

  function IdsOf(rows: seq<Row>): set<int> {
    set r | r in rows :: r.id
  }

  /** `WHERE owner_id = ?`: the caller's rows, in table order. */
  function Owned(rows: seq<Row>, uid: int): (r: seq<Row>)
    ensures |r| <= |rows|
    ensures forall k :: 0 <= k < |r| ==> r[k].owner == uid
  {
    if rows == [] then []
    else (if rows[0].owner == uid then [rows[0]] else []) + Owned(rows[1..], uid)
  }

  /** The caller's rows are exactly the table's rows that the caller owns. */
  lemma {:induction false} OwnedMembers(rows: seq<Row>, uid: int)
    ensures forall x :: x in Owned(rows, uid) <==> x in rows && x.owner == uid
  {
    if rows != [] {
      OwnedMembers(rows[1..], uid);
      assert rows == [rows[0]] + rows[1..];
    }
  }

  /** `WHERE id = ? AND owner_id = ?`: the position of the matching row, or -1. */
  function FindOwned(rows: seq<Row>, id: int, uid: int): (i: int)
    ensures -1 <= i < |rows|
    ensures i == -1 <==> forall j :: 0 <= j < |rows| ==> !(rows[j].id == id && rows[j].owner == uid)
    ensures i >= 0 ==> rows[i].id == id && rows[i].owner == uid
  {
    if rows == [] then -1
    else if rows[0].id == id && rows[0].owner == uid then 0
    else
      var k := FindOwned(rows[1..], id, uid);
      if k == -1 then -1 else k + 1
  }

  /** `DELETE FROM students WHERE id = ?` */
  function RemoveRow(rows: seq<Row>, id: int): (r: seq<Row>)
    ensures |r| <= |rows|
  {
    if rows == [] then []
    else (if rows[0].id == id then [] else [rows[0]]) + RemoveRow(rows[1..], id)
  }

  /** The rows left are exactly those with another id. */
  lemma {:induction false} RemoveRowMembers(rows: seq<Row>, id: int)
    ensures forall x :: x in RemoveRow(rows, id) <==> x in rows && x.id != id
  {
    if rows != [] {
      RemoveRowMembers(rows[1..], id);
      assert rows == [rows[0]] + rows[1..];
    }
  }

  /** With unique ids, deleting by id takes out exactly the one row and keeps the others in order. */
  lemma {:induction false} RemoveRowAt(rows: seq<Row>, i: nat)
    requires IdsIncreasing(rows) && i < |rows|
    ensures RemoveRow(rows, rows[i].id) == rows[..i] + rows[i + 1..]
  {
    var id := rows[i].id;
    var tail := rows[1..];
    TailIdsIncreasing(rows);
    if i == 0 {
      RemoveRowAbsent(tail, id);
      assert RemoveRow(rows, id) == RemoveRow(tail, id);
    } else {
      assert rows[0].id < id;
      assert RemoveRow(rows, id) == [rows[0]] + RemoveRow(tail, id);
      assert tail[i - 1] == rows[i];
      RemoveRowAt(tail, i - 1);
      assert tail[..i - 1] == rows[1..i];
      assert tail[i..] == rows[i + 1..];
      assert rows[..i] == [rows[0]] + rows[1..i];
    }
  }

  /** The rows after the first keep increasing ids, all above the first one's. */
  lemma TailIdsIncreasing(rows: seq<Row>)
    requires IdsIncreasing(rows) && rows != []
    ensures IdsIncreasing(rows[1..])
    ensures forall j :: 0 <= j < |rows[1..]| ==> rows[0].id < rows[1..][j].id
  {
    var tail := rows[1..];
    forall a, b | 0 <= a < b < |tail| ensures tail[a].id < tail[b].id {
      assert tail[a] == rows[a + 1] && tail[b] == rows[b + 1];
    }
    forall j | 0 <= j < |tail| ensures rows[0].id < tail[j].id {
      assert tail[j] == rows[j + 1];
    }
  }

  lemma {:induction false} RemoveRowAbsent(rows: seq<Row>, id: int)
    requires forall j :: 0 <= j < |rows| ==> rows[j].id != id
    ensures RemoveRow(rows, id) == rows
  {
    if rows != [] {
      RemoveRowAbsent(rows[1..], id);
    }
  }

  /** Taking out one row keeps ids increasing and keeps every other id. */
  lemma RemoveAtKeepsIds(rows: seq<Row>, i: nat)
    requires IdsIncreasing(rows) && i < |rows|
    ensures var rest := rows[..i] + rows[i + 1..];
            && IdsIncreasing(rest)
            && (forall r :: r in rest ==> r in rows)
            && IdsOf(rest) == IdsOf(rows) - {rows[i].id}
  {
    var rest := rows[..i] + rows[i + 1..];
    assert forall k :: 0 <= k < |rest| ==> rest[k] == if k < i then rows[k] else rows[k + 1];
    forall y | y in IdsOf(rows) && y != rows[i].id ensures y in IdsOf(rest) {
      var r :| r in rows && r.id == y;
      var k :| 0 <= k < |rows| && rows[k] == r;
      assert k != i;
      if k < i {
        assert rest[k] == r;
      } else {
        assert rest[k - 1] == r;
      }
    }
  }

  /** Replacing a row by one with the same id keeps the ids. */
  lemma UpdateKeepsIds(rows: seq<Row>, i: nat, row: Row)
    requires IdsIncreasing(rows) && i < |rows| && row.id == rows[i].id
    ensures IdsIncreasing(rows[i := row])
    ensures IdsOf(rows[i := row]) == IdsOf(rows)
    ensures forall r :: r in rows[i := row] ==> r == row || r in rows
  {
    var rows' := rows[i := row];
    forall y | y in IdsOf(rows) ensures y in IdsOf(rows') {
      var r :| r in rows && r.id == y;
      var k :| 0 <= k < |rows| && rows[k] == r;
      assert rows'[k].id == y;
    }
    forall r | r in rows' ensures r == row || r in rows {
      var k :| 0 <= k < |rows'| && rows'[k] == r;
      if k != i {
        assert rows[k] == r;
      }
    }
  }

  /** `SELECT ... FROM history WHERE student_id = ?`, in table order. */
  function EntriesOf(h: seq<HistoryRow>, id: int): (r: seq<Entry>)
    ensures |r| <= |h|
  {
    if h == [] then []
    else EntriesOf(h[..|h| - 1], id) + (if h[|h| - 1].studentId == id then [h[|h| - 1].entry] else [])
  }

  /** `DELETE FROM history WHERE student_id = ?` */
  function DropHistory(h: seq<HistoryRow>, id: int): (r: seq<HistoryRow>)
    ensures |r| <= |h|
    ensures forall k :: 0 <= k < |r| ==> r[k].studentId != id
  {
    if h == [] then []
    else DropHistory(h[..|h| - 1], id) + (if h[|h| - 1].studentId == id then [] else [h[|h| - 1]])
  }

  /** The history rows left are exactly those of other students. */
  lemma {:induction false} DropHistoryMembers(h: seq<HistoryRow>, id: int)
    ensures forall x :: x in DropHistory(h, id) <==> x in h && x.studentId != id
  {
    if h != [] {
      DropHistoryMembers(h[..|h| - 1], id);
      assert h == h[..|h| - 1] + [h[|h| - 1]];
    }
  }

  /** `LIMIT n` */
  function Limit<T>(s: seq<T>, n: nat): (r: seq<T>)
    ensures |r| <= n && |r| <= |s|
    ensures r == s[..|r|]
    ensures |s| <= n ==> r == s
    ensures |s| > n ==> |r| == n
  {
    if |s| <= n then s else s[..n]
  }

  lemma LimitIgnoresTail<T>(s: seq<T>, t: seq<T>, n: nat)
    requires |s| >= n
    ensures Limit(s + t, n) == Limit(s, n)
  {
    assert (s + t)[..n] == s[..n];
  }

  /**
   * `ORDER BY t ASC LIMIT 64`: the history served with a student. It is drawn from that
   * student's entries, holds all of them or 64, is in time order, and every entry left out
   * is at least as late as every entry served: the 64 oldest.
   */
  function Recent(h: seq<HistoryRow>, id: int): (r: seq<Entry>)
    ensures multiset(r) <= multiset(EntriesOf(h, id))
    ensures |r| == if |EntriesOf(h, id)| <= HISTORY_LIMIT then |EntriesOf(h, id)| else HISTORY_LIMIT
    ensures SortedBy(r, EntryTime)
    ensures forall e, k :: e in EntriesOf(h, id) && e !in r && 0 <= k < |r| ==> r[k].t <= e.t
  {
    var entries := EntriesOf(h, id);
    EarliestWindow(entries, HISTORY_LIMIT);
    Limit(SortBy(entries, EntryTime), HISTORY_LIMIT)
  }

  /**
   * The first `n` entries by time are drawn from the entries, number all of them or `n`,
   * and no entry left out is earlier than one kept.
   */
  lemma EarliestWindow(entries: seq<Entry>, n: nat)
    ensures multiset(Limit(SortBy(entries, EntryTime), n)) <= multiset(entries)
    ensures SortedBy(Limit(SortBy(entries, EntryTime), n), EntryTime)
    ensures forall e, k :: e in entries && e !in Limit(SortBy(entries, EntryTime), n) && 0 <= k < |Limit(SortBy(entries, EntryTime), n)|
                       ==> Limit(SortBy(entries, EntryTime), n)[k].t <= e.t
  {
    var s := SortBy(entries, EntryTime);
    SortByMembers(entries, EntryTime);
    LimitKeepsEarliest(s, n);
  }

  /**
   * Cutting a time-ordered sequence keeps a sub-multiset of it, and every element cut off
   * is at least as late as every element kept.
   */
  lemma LimitKeepsEarliest(s: seq<Entry>, n: nat)
    requires SortedBy(s, EntryTime)
    ensures multiset(Limit(s, n)) <= multiset(s)
    ensures SortedBy(Limit(s, n), EntryTime)
    ensures forall e, k :: e in s && e !in Limit(s, n) && 0 <= k < |Limit(s, n)| ==> Limit(s, n)[k].t <= e.t
  {
    var r := Limit(s, n);
    assert s == r + s[|r|..];
    forall e, k | e in s && e !in r && 0 <= k < |r| ensures r[k].t <= e.t {
      var j :| 0 <= j < |s| && s[j] == e;
      assert forall i :: 0 <= i < |r| ==> r[i] == s[i];
      assert j >= |r|;
      assert EntryTime(s[k]) <= EntryTime(s[j]);
    }
  }

  /** Appending a history row adds its entry to that student's history only. */
  lemma EntriesOfAppend(h: seq<HistoryRow>, x: HistoryRow, id: int)
    ensures EntriesOf(h + [x], id) == EntriesOf(h, id) + if x.studentId == id then [x.entry] else []
  {
    assert (h + [x])[..|h|] == h;
  }

  /** Dropping one student's history rows empties its history and keeps everyone else's. */
  lemma {:induction false} EntriesOfDrop(h: seq<HistoryRow>, id: int, other: int)
    ensures EntriesOf(DropHistory(h, id), other) == if other == id then [] else EntriesOf(h, other)
  {
    if h != [] {
      var init, last := h[..|h| - 1], h[|h| - 1];
      EntriesOfDrop(init, id, other);
      var dropped := DropHistory(init, id);
      if last.studentId != id {
        assert DropHistory(h, id) == dropped + [last];
        EntriesOfAppend(dropped, last, other);
      } else {
        assert DropHistory(h, id) == dropped;
        assert EntriesOf(h, other) == EntriesOf(init, other) + if other == id then [last.entry] else [];
      }
    }
  }

  /** `EntriesOfDrop` for every student at once. */
  lemma EntriesOfDropAll(h: seq<HistoryRow>, id: int)
    ensures forall other :: EntriesOf(DropHistory(h, id), other) == if other == id then [] else EntriesOf(h, other)
  {
    forall other ensures EntriesOf(DropHistory(h, id), other) == if other == id then [] else EntriesOf(h, other) {
      EntriesOfDrop(h, id, other);
    }
  }

  /**
   * When a student's entries are in time order, the served history is the start of the log:
   * its oldest 64 entries, not its newest.
   */
  lemma RecentIsOldest(h: seq<HistoryRow>, id: int)
    requires SortedBy(EntriesOf(h, id), EntryTime)
    ensures Recent(h, id) == Limit(EntriesOf(h, id), HISTORY_LIMIT)
  {
    SortBySorted(EntriesOf(h, id), EntryTime);
  }

  /**
   * Once a time-ordered history holds 64 entries, a newer entry does not change what is
   * served: the latest adjustments never reach the client.
   */
  lemma RecentIgnoresNewest(h: seq<HistoryRow>, id: int, x: HistoryRow)
    requires SortedBy(EntriesOf(h, id), EntryTime)
    requires |EntriesOf(h, id)| >= HISTORY_LIMIT
    requires x.studentId == id
    requires forall k :: 0 <= k < |EntriesOf(h, id)| ==> EntriesOf(h, id)[k].t <= x.entry.t
    ensures Recent(h + [x], id) == Recent(h, id)
  {
    var before := EntriesOf(h, id);
    EntriesOfAppend(h, x, id);
    assert EntriesOf(h + [x], id) == before + [x.entry];
    AppendLargest(before, x.entry, EntryTime);
    RecentIsOldest(h, id);
    RecentIsOldest(h + [x], id);
    LimitIgnoresTail(before, [x.entry], HISTORY_LIMIT);
  }

  /**
   * The signed-in client tests the reply against its own threshold of 1000. Against the
   * hosted server, whose threshold is 10, an increase that stays below 1000 points never
   * opens the reward dialog, whatever it earned.
   */
  lemma HostedRewardsUnnoticed(t: Totals, delta: int)
    requires delta > 0 && t.points + delta < CLIENT_THRESHOLD
    ensures var r := Apply(t, delta, ThresholdOf(HostedServer));
            r.points == t.points + delta && !RewardNotice(r.points, r.rewards, delta, CLIENT_THRESHOLD)
  {
    var a := t.points + delta;
    DivModUnique(a, CLIENT_THRESHOLD, 0, a);
    DivModUnique(t.points, CLIENT_THRESHOLD, 0, t.points);
  }

  /** From 5 points, +5 on the hosted server earns a reward that the client does not announce. */
  lemma HostedRewardUnnoticedExample()
    ensures var r := Apply(Totals(5, 0), 5, ThresholdOf(HostedServer));
            r == Totals(10, 1) && !RewardNotice(r.points, r.rewards, 5, CLIENT_THRESHOLD)
  {
    HostedRewardsUnnoticed(Totals(5, 0), 5);
  }

  /** The row after an adjustment: the shared rule applied to its points and rewards. */
  function AdjustedRow(row: Row, delta: int, threshold: nat): (a: Row)
    requires threshold > 0
    ensures a.id == row.id && a.owner == row.owner && a.name == row.name && a.createdAt == row.createdAt
    ensures a.points >= row.points + delta && a.rewards >= row.rewards
  {
    var t := Apply(Totals(row.points, row.rewards), delta, threshold);
    row.(points := t.points, rewards := t.rewards)
  }

  /**
   * What an adjustment does to a row: only points and rewards change; points are clamped at
   * zero; rewards grow by the completed cycles of an increase, so a decrease never earns one
   * and the `after >= threshold` test adds nothing.
   */
  lemma AdjustedRowFacts(row: Row, delta: int, threshold: nat)
    requires threshold > 0
    ensures var a := AdjustedRow(row, delta, threshold);
            && a.id == row.id && a.owner == row.owner && a.name == row.name && a.createdAt == row.createdAt
            && a.points >= row.points + delta && (a.points == 0 || a.points == row.points + delta)
            && a.rewards == row.rewards + (if a.points > row.points then a.points / threshold - row.points / threshold else 0)
            && (delta <= 0 ==> a.rewards == row.rewards)
  {
    EarnedCountsCrossings(row.points, Clamp(row.points, delta), threshold);
  }

  /**
   * Ids are positive, increase with insertion and stay below the counter; every history row
   * belongs to an existing student and stores a cycle-local value.
   */
  ghost predicate TablesValid(students: seq<Row>, history: seq<HistoryRow>, nextId: int, threshold: nat) {
    && nextId >= 1
    && IdsIncreasing(students)
    && (forall r :: r in students ==> 1 <= r.id < nextId)
    && (forall x :: x in history ==> x.studentId in IdsOf(students) && 0 <= x.entry.points < threshold)
  }

  /** Replacing a row by one with the same id and logging a cycle-local entry for it keeps the tables valid. */
  lemma AdjustKeepsTablesValid(students: seq<Row>, history: seq<HistoryRow>, nextId: int, threshold: nat,
                               i: nat, row: Row, entry: Entry)
    requires TablesValid(students, history, nextId, threshold)
    requires i < |students| && row.id == students[i].id && 0 <= entry.points < threshold
    ensures TablesValid(students[i := row], history + [HistoryRow(row.id, entry)], nextId, threshold)
  {
    var rows, hist := students[i := row], history + [HistoryRow(row.id, entry)];
    UpdateKeepsIds(students, i, row);
    assert students[i] in students;
    forall r | r in rows ensures 1 <= r.id < nextId {
      assert r == row || r in students;
    }
    assert row.id in IdsOf(students);
    forall x | x in hist ensures x.studentId in IdsOf(rows) && 0 <= x.entry.points < threshold {
      assert x in history || x == HistoryRow(row.id, entry);
    }
  }

  /** Appending a row with the counter's id and its seed entry keeps the tables valid. */
  lemma CreateKeepsTablesValid(students: seq<Row>, history: seq<HistoryRow>, nextId: int, threshold: nat, row: Row, entry: Entry)
    requires TablesValid(students, history, nextId, threshold)
    requires row.id == nextId && 0 <= entry.points < threshold
    ensures TablesValid(students + [row], history + [HistoryRow(row.id, entry)], nextId + 1, threshold)
  {
    var rows := students + [row];
    assert forall r :: r in rows ==> r in students || r == row;
    assert forall r :: r in students ==> r in rows;
    assert row in rows;
  }

  /** Taking out one row and all of its history rows keeps the tables valid. */
  lemma DeleteKeepsTablesValid(students: seq<Row>, history: seq<HistoryRow>, nextId: int, threshold: nat, i: nat)
    requires TablesValid(students, history, nextId, threshold) && i < |students|
    ensures TablesValid(students[..i] + students[i + 1..], DropHistory(history, students[i].id), nextId, threshold)
  {
    RemoveAtKeepsIds(students, i);
    DropHistoryMembers(history, students[i].id);
  }

  function RowsOf(views: seq<StudentView>): (rows: seq<Row>)
    ensures |rows| == |views|
    ensures forall k :: 0 <= k < |views| ==> rows[k] == views[k].row
  {
    seq(|views|, k requires 0 <= k < |views| => views[k].row)
  }

  /** The tables of one server. */
  class Server {
    const variant: Variant
    /** The `students` table in row order; ids come from an AUTOINCREMENT counter. */
    var students: seq<Row>
    /** The `history` table in insertion order. */
    var history: seq<HistoryRow>
    /** The next AUTOINCREMENT id. */
    var nextId: int

    /** The tables' integrity, as the database keeps it. */
    ghost predicate Valid()
      reads this
    {
      TablesValid(students, history, nextId, ThresholdOf(variant))
    }

    constructor (v: Variant)
      ensures Valid()
      ensures variant == v && students == [] && history == [] && nextId == 1
    {
      variant := v;
      students := [];
      history := [];
      nextId := 1;
    }

    /**
     * `GET /api/students`: exactly the caller's rows, in the server's list order, each with
     * at most 64 history entries, the oldest by time.
     */
    method List(uid: int) returns (views: seq<StudentView>)
      ensures multiset(RowsOf(views)) == multiset(Owned(students, uid))
      ensures forall k :: 0 <= k < |views| ==> views[k].row in students && views[k].row.owner == uid
      ensures SortedBy(RowsOf(views), ListKey(variant))
      ensures forall k :: 0 <= k < |views| ==> views[k].history == Recent(history, views[k].row.id)
    {
      var owned := Owned(students, uid);
      OwnedMembers(students, uid);
      var rows := SortBy(owned, ListKey(variant));
      SortByMembers(owned, ListKey(variant));
      assert forall k :: 0 <= k < |rows| ==> rows[k] in students && rows[k].owner == uid;
      var h := history;
      views := seq(|rows|, k requires 0 <= k < |rows| => StudentView(rows[k], Recent(h, rows[k].id)));
      assert RowsOf(views) == rows;
    }

    /**
     * `POST /api/students`: a missing or empty name is refused and nothing changes;
     * otherwise one row with no points and no rewards, owned by the caller, and one seed
     * history row are inserted. `now` and `replyNow` stand for the two clock reads.
     */
    method Create(uid: int, name: Option<string>, now: int, replyNow: int) returns (r: Result<StudentView>)
      requires Valid()
      modifies this
      ensures Valid()
      ensures NameMissing(name) ==> r == Failure(NameRequired) && unchanged(this)
      ensures !NameMissing(name) ==>
                var row := Row(old(nextId), uid, name.value, 0, 0, now);
                && students == old(students) + [row]
                && history == old(history) + [HistoryRow(row.id, Entry(now, 0, CREATED_REASON))]
                && nextId == old(nextId) + 1
                && r == Success(StudentView(row, [Entry(replyNow, 0, CREATED_REASON)]))
    {
      if name.None? || name.value == "" {
        return Failure(NameRequired);
      }
      var row := Row(nextId, uid, name.value, 0, 0, now);
      CreateKeepsTablesValid(students, history, nextId, ThresholdOf(variant), row, Entry(now, 0, CREATED_REASON));
      students := students + [row];
      nextId := nextId + 1;
      history := history + [HistoryRow(row.id, Entry(now, 0, CREATED_REASON))];
      r := Success(StudentView(row, [Entry(replyNow, 0, CREATED_REASON)]));
    }

    /**
     * `DELETE /api/students/:id`: an id the caller does not own is `NotFound` and nothing
     * changes; otherwise the row and all of its history rows go, and nothing else does.
     */
    method Delete(uid: int, id: int) returns (r: Result<()>)
      requires Valid()
      modifies this
      ensures Valid()
      ensures var i := FindOwned(old(students), id, uid);
              if i < 0 then r == Failure(NotFound) && unchanged(this)
              else
                && r == Success(())
                && students == old(students)[..i] + old(students)[i + 1..]
                && history == DropHistory(old(history), id)
                && nextId == old(nextId)
      ensures r.Success? ==> forall other :: EntriesOf(history, other) == if other == id then [] else EntriesOf(old(history), other)
    {
      var i := FindOwned(students, id, uid);
      if i == -1 {
        assert Valid();
        return Failure(NotFound);
      }
      var rows, h := students, history;
      RemoveRowAt(rows, i);
      DeleteKeepsTablesValid(rows, h, nextId, ThresholdOf(variant), i);
      var kept := RemoveRow(rows, id);
      var dropped := DropHistory(h, id);
      EntriesOfDropAll(h, id);
      students := kept;
      history := dropped;
      assert Valid();
      r := Success(());
    }

    /**
     * `POST /api/students/:id/adjust`. A non-integer delta or one beyond 100000 either way is
     * `InvalidDelta`, and an id the caller does not own is `NotFound`; both change nothing.
     * Otherwise the row takes the adjusted points and rewards, one history row with the new
     * cycle-local value and the reason is appended, and the reply carries the served history.
     */
    method Adjust(uid: int, id: int, delta: Delta, reason: Option<string>, now: int) returns (r: Result<StudentView>)
      requires Valid()
      modifies this
      ensures Valid()
      ensures !AcceptableDelta(delta) ==> r == Failure(InvalidDelta) && unchanged(this)
      ensures AcceptableDelta(delta) && FindOwned(old(students), id, uid) < 0 ==> r == Failure(NotFound) && unchanged(this)
      ensures AcceptableDelta(delta) && FindOwned(old(students), id, uid) >= 0 ==>
                var i := FindOwned(old(students), id, uid);
                var row := AdjustedRow(old(students)[i], delta.value, ThresholdOf(variant));
                var entry := Entry(now, CycleLocal(row.points, ThresholdOf(variant)), ReasonOrDefault(reason));
                && students == old(students)[i := row]
                && history == old(history) + [HistoryRow(id, entry)]
                && EntriesOf(history, id) == EntriesOf(old(history), id) + [entry]
                && nextId == old(nextId)
                && r == Success(StudentView(row, Recent(history, id)))
    {
      var threshold := ThresholdOf(variant);
      if !delta.Integer? || Abs(delta.value) > MAX_DELTA {
        return Failure(InvalidDelta);
      }
      var i := FindOwned(students, id, uid);
      if i == -1 {
        assert Valid();
        return Failure(NotFound);
      }
      var s := students[i];
      var before := s.points;
      var after := if before + delta.value < 0 then 0 else before + delta.value;
      var rewards := s.rewards;
      if after >= threshold && after > before {
        var beforeRewards := before / threshold;
        var afterRewards := after / threshold;
        var newlyEarned := afterRewards - beforeRewards;
        if newlyEarned > 0 {
          rewards := rewards + newlyEarned;
        }
      }
      assert after == Clamp(before, delta.value);
      assert rewards == s.rewards + Earned(before, after, threshold);
      var updated := s.(points := after, rewards := rewards);
      assert updated == AdjustedRow(s, delta.value, threshold);
      var entry := Entry(now, CycleLocal(after, threshold), ReasonOrDefault(reason));
      EntriesOfAppend(history, HistoryRow(id, entry), id);
      assert updated.id == id;
      AdjustKeepsTablesValid(students, history, nextId, threshold, i, updated, entry);
      students := students[i := updated];
      history := history + [HistoryRow(id, entry)];
      assert Valid();
      r := Success(StudentView(updated, Recent(history, id)));
    }
  }
}
