/**
 * The browser client's offline branch (app.js): the list of student records kept in local
 * storage, changed in place by adding, adjusting and removing a student.
 */
module OfflineStore {
  import opened Common
  import opened Text
  import opened Accounting
  import HistoryView

  /** REWARD_THRESHOLD of the browser client. */
  const THRESHOLD: nat := CLIENT_THRESHOLD

  /** `findIndex` by id: the first record carrying `id`, or -1 when there is none. */
  function IndexOf(ss: seq<Student>, id: string): (i: int)
    ensures -1 <= i < |ss|
    ensures i == -1 <==> forall j :: 0 <= j < |ss| ==> ss[j].id != id
    ensures i >= 0 ==> ss[i].id == id && forall j :: 0 <= j < i ==> ss[j].id != id
  {
    if ss == [] then -1
    else if ss[0].id == id then 0
    else
      var k := IndexOf(ss[1..], id);
      if k == -1 then -1 else k + 1
  }

  predicate DistinctIds(ss: seq<Student>) {
    forall i, j :: 0 <= i < j < |ss| ==> ss[i].id != ss[j].id
  }

  /** Some record's name equals `name` when both are lower-cased. */
  predicate NameTaken(ss: seq<Student>, name: string)
    ensures NameTaken(ss, name) <==> exists s :: s in ss && Lower(s.name) == Lower(name)
  {
    exists j :: 0 <= j < |ss| && Lower(ss[j].name) == Lower(name)
  }

  /** The collision test ignores case: a name and its lower-cased form collide with the same records. */
  lemma NameTakenIgnoresCase(ss: seq<Student>, name: string)
    ensures NameTaken(ss, Lower(name)) <==> NameTaken(ss, name)
  {
    LowerIdempotent(name);
  }

  /** The name a new student gets: `name`, or `name` followed by a space and the two-digit suffix when taken. */
  function NewName(ss: seq<Student>, name: string, suffix: nat): (r: string)
    ensures |r| >= |name| && r[..|name|] == name
    ensures r == name <==> !NameTaken(ss, name)
  {
    if NameTaken(ss, name) then name + " " + Decimal(suffix) else name
  }

  /**
   * A free name is kept; a taken one becomes `name`, a space and the suffix, which no longer
   * matches, even ignoring case, any of the names it collided with.
   */
  lemma NewNameFacts(ss: seq<Student>, name: string, suffix: nat)
    requires 10 <= suffix <= 99
    ensures !NameTaken(ss, name) ==> NewName(ss, name, suffix) == name
    ensures NameTaken(ss, name) ==>
              var n := NewName(ss, name, suffix);
              |n| == |name| + 3 && n[..|name|] == name && n[|name|] == ' '
              && AllDigits(n[|name| + 1..]) && ParseDecimal(n[|name| + 1..]) == suffix
    ensures NameTaken(ss, name) ==>
              forall j :: 0 <= j < |ss| && Lower(ss[j].name) == Lower(name) ==>
                Lower(ss[j].name) != Lower(NewName(ss, name, suffix))
  {
    if NameTaken(ss, name) {
      var n := NewName(ss, name, suffix);
      assert Decimal(suffix) == Decimal(suffix / 10) + [DigitChar(suffix % 10)];
      assert |Decimal(suffix)| == 2;
      assert n[|name| + 1..] == Decimal(suffix);
      DecimalRoundTrip(suffix);
    }
  }

  /** A new record: no points, no rewards, and the one seed history entry. */
  function Created(id: string, name: string, now: int): (c: Student)
    ensures c.id == id && c.name == name && c.points == 0 && RewardsOf(c) == 0
    ensures |HistoryOf(c)| == 1 && HistoryOf(c)[0].points == CycleLocal(c.points, THRESHOLD)
  {
    Student(id, name, 0, Some(0), Some([Entry(now, 0, CREATED_REASON)]))
  }

  /**
   * A record after one adjustment: the clamped total, the counter raised (and written)
   * only when rewards were earned, and one history entry appended.
   */
  function Adjusted(s: Student, delta: int, reason: string, now: int): (a: Student)
    ensures a.id == s.id && a.name == s.name && RewardsOf(a) >= RewardsOf(s)
    ensures |HistoryOf(a)| == |HistoryOf(s)| + 1 && HistoryOf(a)[..|HistoryOf(s)|] == HistoryOf(s)
    ensures HistoryOf(a)[|HistoryOf(s)|].points == CycleLocal(a.points, THRESHOLD)
  {
    var r := Apply(Totals(s.points, RewardsOf(s)), delta, THRESHOLD);
    s.(points := r.points,
       rewards := if r.rewards > RewardsOf(s) then Some(r.rewards) else s.rewards,
       history := Some(HistoryOf(s) + [Entry(now, CycleLocal(r.points, THRESHOLD), reason)]))
  }

  /**
   * What one adjustment does to a record: identity kept, points clamped at zero, rewards
   * raised by the completed cycles of an increase and never lowered, and exactly one entry
   * appended whose points are the new total's progress in the cycle.
   */
  lemma AdjustedFacts(s: Student, delta: int, reason: string, now: int)
    ensures var a := Adjusted(s, delta, reason, now);
            && a.id == s.id && a.name == s.name
            && a.points >= s.points + delta && (a.points == 0 || a.points == s.points + delta)
            && RewardsOf(a) == RewardsOf(s) + (if a.points > s.points then a.points / THRESHOLD - s.points / THRESHOLD else 0)
            && (a.rewards != s.rewards ==> a.points > s.points && a.points >= THRESHOLD)
            && HistoryOf(a) == HistoryOf(s) + [Entry(now, CycleLocal(a.points, THRESHOLD), reason)]
  {
  }

  /** `filter` on id: the records whose id differs from `id`, in their order. */
  function Without(ss: seq<Student>, id: string): (r: seq<Student>)
    ensures forall s :: s in r <==> s in ss && s.id != id
    ensures |r| <= |ss|
  {
    if ss == [] then []
    else (if ss[0].id == id then [] else [ss[0]]) + Without(ss[1..], id)
  }

  /** Removing an id no record carries changes nothing. */
  lemma {:induction false} WithoutAbsent(ss: seq<Student>, id: string)
    requires forall j :: 0 <= j < |ss| ==> ss[j].id != id
    ensures Without(ss, id) == ss
  {
    if ss != [] {
      WithoutAbsent(ss[1..], id);
    }
  }

  /** Removing twice is removing once. */
  lemma WithoutIdempotent(ss: seq<Student>, id: string)
    ensures Without(Without(ss, id), id) == Without(ss, id)
  {
    var r := Without(ss, id);
    assert forall j :: 0 <= j < |r| ==> r[j] in r;
    WithoutAbsent(r, id);
  }

  /** Removal works part by part: the kept records of a concatenation keep their order. */
  lemma {:induction false} WithoutConcat(a: seq<Student>, b: seq<Student>, id: string)
    ensures Without(a + b, id) == Without(a, id) + Without(b, id)
  {
    if a != [] {
      assert (a + b)[1..] == a[1..] + b;
      WithoutConcat(a[1..], b, id);
    } else {
      assert a + b == b;
    }
  }

  /** Removal keeps ids distinct. */
  lemma {:induction false} WithoutDistinct(ss: seq<Student>, id: string)
    requires DistinctIds(ss)
    ensures DistinctIds(Without(ss, id))
  {
    if ss != [] {
      WithoutDistinct(ss[1..], id);
      var rest := Without(ss[1..], id);
      forall x | x in rest ensures x.id != ss[0].id {
        var k :| 0 <= k < |ss[1..]| && ss[1..][k] == x;
        assert ss[k + 1] == x;
      }
    }
  }

  /** Replacing a record by one with the same id and a non-empty history keeps the roster's invariant. */
  lemma ReplaceKeepsValid(ss: seq<Student>, i: nat, x: Student)
    requires i < |ss| && x.id == ss[i].id && HistoryOf(x) != []
    ensures DistinctIds(ss) ==> DistinctIds(ss[i := x])
    ensures (forall y :: y in ss ==> HistoryOf(y) != []) ==> forall y :: y in ss[i := x] ==> HistoryOf(y) != []
  {
    forall y | y in ss[i := x] ensures y == x || y in ss {
      var k :| 0 <= k < |ss| && ss[i := x][k] == y;
      if k != i {
        assert ss[k] == y;
      }
    }
  }

  /** The student list of the offline client, as local storage holds it. */
  class Roster {
    var students: seq<Student>

    /** Ids are distinct and every record has a non-empty history. */
    ghost predicate Valid()
      reads this
    {
      && DistinctIds(students)
      && forall s :: s in students ==> HistoryOf(s) != []
    }

    constructor (loaded: seq<Student>)
      ensures students == loaded
    {
      students := loaded;
    }

    /**
     * `addStudent` offline: appends one new record, renamed with the suffix when its name is
     * taken ignoring case. `newId` stands for `uid()` and `suffix` for the random 10..99.
     */
    method AddStudent(name: string, newId: string, suffix: nat, now: int)
      requires 10 <= suffix <= 99
      requires forall j :: 0 <= j < |students| ==> students[j].id != newId
      modifies this
      ensures students == old(students) + [Created(newId, NewName(old(students), name, suffix), now)]
      ensures HistoryView.TotalRewards(students) == HistoryView.TotalRewards(old(students))
      ensures old(Valid()) ==> Valid()
    {
      var taken := NameTaken(students, name);
      var student := Student(newId, if taken then name + " " + Decimal(suffix) else name,
                             0, Some(0), Some([Entry(now, 0, CREATED_REASON)]));
      HistoryView.TotalRewardsAppend(students, student);
      students := students + [student];
    }

    /**
     * `adjustPoints` offline. An unknown id changes nothing. Otherwise the record is replaced
     * by its adjusted form in place; `rewardShown` tells whether the reward dialog opens,
     * which is exactly when the counter grew, and the header's reward total grows by the same.
     */
    method AdjustPoints(id: string, delta: int, reason: Option<string>, now: int) returns (rewardShown: bool)
      modifies this
      ensures var i := IndexOf(old(students), id);
              if i < 0 then students == old(students) && !rewardShown
              else
                && students == old(students)[i := Adjusted(old(students)[i], delta, reason.GetOr(DEFAULT_REASON), now)]
                && rewardShown == (RewardsOf(students[i]) > RewardsOf(old(students)[i]))
                && HistoryView.TotalRewards(students) + RewardsOf(old(students)[i])
                   == HistoryView.TotalRewards(old(students)) + RewardsOf(students[i])
      ensures old(Valid()) ==> Valid()
    {
      var idx := IndexOf(students, id);
      if idx == -1 {
        return false;
      }
      var s := students[idx];
      var before := s.points;
      var after := if before + delta < 0 then 0 else before + delta;
      rewardShown := false;
      if after >= THRESHOLD && after > before {
        var beforeRewards := before / THRESHOLD;
        var afterRewards := after / THRESHOLD;
        var newlyEarned := afterRewards - beforeRewards;
        if newlyEarned > 0 {
          s := s.(rewards := Some(RewardsOf(s) + newlyEarned));
          rewardShown := true;
        }
      }
      assert rewardShown <==> RewardsOf(s) > RewardsOf(students[idx]);
      s := s.(points := after, history := Some(HistoryOf(s) + [Entry(now, CycleLocal(after, THRESHOLD), reason.GetOr(DEFAULT_REASON))]));
      assert s == Adjusted(students[idx], delta, reason.GetOr(DEFAULT_REASON), now);
      HistoryView.TotalRewardsAfterUpdate(students, idx, s);
      ReplaceKeepsValid(students, idx, s);
      students := students[idx := s];
    }

    /** `removeStudent` offline: keeps exactly the records whose id differs, in order. */
    method RemoveStudent(id: string)
      modifies this
      ensures students == Without(old(students), id)
      ensures old(Valid()) ==> Valid()
    {
      if Valid() {
        WithoutDistinct(students, id);
      }
      students := Without(students, id);
    }
  }
}
