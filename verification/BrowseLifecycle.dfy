/** The state machine behind one "View Files" browse (src/BrowseLifecycle.cpp). */
module BrowseLifecycle {
  import opened Common

  datatype State = InProgress | Finished | Failed

  datatype Action = NoAction | Complete | Expire | Drop

  /** `outstanding` of a browse that is answered in a single packet, or not answered yet. */
  const FLAT_BROWSE: int := -1

  const SILENCE_TIMEOUT_MS: nat := 120000

  datatype Record = Record(
    searchId: uint32,
    state: State,
    outstanding: int,
    totalDirs: int,
    deadline: uint64)

  /** The silence deadline set at tick `now`; the tick counter is a 64-bit unsigned. */
  function Deadline(now: uint64): uint64 {
    (now + SILENCE_TIMEOUT_MS) % TWO64
  }

  function Tick(rec: Record, now: uint64): Action {
    if rec.state != InProgress then Drop
    else if rec.outstanding == 0 then Complete
    else if rec.deadline != 0 && rec.deadline < now then Expire
    else NoAction
  }

  /** 0..100 while the browse runs; 0xffff, the "clear the bar" mark, exactly once it has ended. */
  function BarValue(rec: Record): (v: nat)
    ensures rec.state != InProgress <==> v == 0xffff
    ensures rec.state == InProgress ==> v <= 100
  {
    if rec.state != InProgress then 0xffff
    else if rec.totalDirs > 0 then
      var done := rec.totalDirs - (if rec.outstanding > 0 then rec.outstanding else 0);
      var capped := if done < 0 then 0 else if done > rec.totalDirs then rec.totalDirs else done;
      Percent(capped, rec.totalDirs);
      capped * 100 / rec.totalDirs
    else 0
  }

  /** While a browse runs its bar is the percentage of its directories answered, rounded down; 0 if it has none. */
  lemma BarIsFloor(rec: Record, answered: int)
    requires rec.state == InProgress
    ensures rec.totalDirs <= 0 ==> BarValue(rec) == 0
    ensures 0 <= answered <= rec.totalDirs != 0 && rec.outstanding == rec.totalDirs - answered ==>
              BarValue(rec) * rec.totalDirs <= answered * 100 < (BarValue(rec) + 1) * rec.totalDirs
    ensures 0 < rec.totalDirs && rec.outstanding <= 0 ==> BarValue(rec) == 100
    ensures 0 < rec.totalDirs <= rec.outstanding ==> BarValue(rec) == 0
  {
    if 0 < rec.totalDirs {
      Whole(rec.totalDirs);
    }
  }

  lemma Whole(total: int)
    requires 0 < total
    ensures total * 100 / total == 100
  {
    var q, r := total * 100 / total, total * 100 % total;
    assert total * 100 == q * total + r;
    assert (100 - q) * total == r && (q + 1 - 100) * total == total - r;
    Sign(100 - q, total);
    Sign(q + 1 - 100, total);
  }

  function ApplyAction(rec: Record, action: Action): Record {
    if rec.state != InProgress then rec
    else match action
      case Complete => rec.(state := Finished)
      case Expire => rec.(state := Failed)
      case _ => rec
  }

  function OnDirectoryList(rec: Record, dirCount: int, deadline: uint64): Record {
    if rec.state != InProgress then rec
    else
      var n := if dirCount > 0 then dirCount else 0;
      rec.(outstanding := n, totalDirs := n, deadline := deadline)
  }

  function OnListingReceived(rec: Record, deadline: uint64): Record {
    if rec.state != InProgress then rec
    else
      var left := if rec.outstanding == FLAT_BROWSE then 0
                  else if rec.outstanding > 0 then rec.outstanding - 1
                  else rec.outstanding;
      rec.(outstanding := left, deadline := deadline)
  }

  /** A listing never takes the count below none; a flat browse has its only one. */
  lemma ListingsRunOut(rec: Record, deadline: uint64)
    requires rec.state == InProgress && rec.outstanding >= FLAT_BROWSE
    ensures OnListingReceived(rec, deadline) ==
              rec.(outstanding := if rec.outstanding > 1 then rec.outstanding - 1 else 0, deadline := deadline)
  {}

  lemma Percent(done: int, total: int)
    requires 0 <= done <= total && 0 < total
    ensures 0 <= done * 100 / total <= 100
    ensures done < total ==> done * 100 / total < 100
  {}

  lemma PercentMonotone(a: int, b: int, total: int)
    requires 0 <= a <= b && 0 < total
    ensures a * 100 / total <= b * 100 / total
  {
    var p, q := a * 100 / total, b * 100 / total;
    assert a * 100 == p * total + a * 100 % total;
    assert b * 100 == q * total + b * 100 % total;
    assert (q + 1 - p) * total == (b - a) * 100 + a * 100 % total - b * 100 % total + total;
    Sign(q + 1 - p, total);
  }

  lemma Sign(a: int, b: int)
    requires 0 < b
    ensures 0 < a * b ==> 0 < a
    ensures 0 <= a * b ==> 0 <= a
  {}
}
