/** The line marks a..z. */
module EdMarks {
  import opened EdRing

  const MAXMARK: nat := 26

  /** How many marks are set. */
  ghost function SetMarks(mark: seq<Line?>): nat {
    if mark == [] then 0 else SetMarks(mark[..|mark| - 1]) + (if mark[|mark| - 1] == null then 0 else 1)
  }

  lemma {:induction false} SetMarksUpdate(mark: seq<Line?>, i: nat, lp: Line?)
    requires i < |mark|
    ensures SetMarks(mark[i := lp]) - SetMarks(mark) == (if lp == null then 0 else 1) - (if mark[i] == null then 0 else 1)
  {
    var k := |mark| - 1;
    if i == k {
      assert mark[i := lp][..k] == mark[..k];
    } else {
      assert mark[i := lp][..k] == mark[..k][i := lp];
      SetMarksUpdate(mark[..k], i, lp);
    }
  }

  lemma {:induction false} NoMarks(mark: seq<Line?>, i: nat)
    requires i < |mark| && SetMarks(mark) == 0
    ensures mark[i] == null
  {
    var k := |mark| - 1;
    if i < k {
      NoMarks(mark[..k], i);
    }
  }

  /** The marks with every mark on lp removed. */
  ghost function Unmarked(mark: seq<Line?>, lp: Line): seq<Line?> {
    seq(|mark|, i requires 0 <= i < |mark| => if mark[i] == lp then null else mark[i])
  }

  class Marks {
    var mark: seq<Line?>
    var markno: nat

    ghost predicate Valid()
      reads this
    {
      |mark| == MAXMARK && markno == SetMarks(mark)
    }

    constructor ()
      ensures Valid() && forall i :: 0 <= i < MAXMARK ==> mark[i] == null
    {
      mark, markno := seq(MAXMARK, _ => null), 0;
      new;
      NoneSet(MAXMARK);
    }

    static lemma NoneSet(n: nat)
      ensures SetMarks(seq(n, _ => null)) == 0
    {
      if n > 0 {
        assert seq<Line?>(n, _ => null)[..n - 1] == seq<Line?>(n - 1, _ => null);
        NoneSet(n - 1);
      }
    }

    method MarkLineNode(lp: Line, n: char) returns (ok: bool)
      requires Valid()
      modifies this
      ensures Valid() && ok == ('a' <= n <= 'z')
      ensures mark == if ok then old(mark)[(n - 'a') as int := lp] else old(mark)
    {
      if !('a' <= n <= 'z') {
        return false;
      }
      var i := (n - 'a') as int;
      SetMarksUpdate(mark, i, lp);
      if mark[i] == null {
        markno := markno + 1;
      }
      mark := mark[i := lp];
      ok := true;
    }

    /** The loop stops early once no mark is left. */
    method UnmarkLineNode(lp: Line)
      requires Valid()
      modifies this
      ensures Valid() && mark == Unmarked(old(mark), lp)
    {
      var i := 0;
      while markno != 0 && i < MAXMARK
        invariant 0 <= i <= MAXMARK && Valid()
        invariant mark[..i] == Unmarked(old(mark), lp)[..i] && mark[i..] == old(mark)[i..]
      {
        if mark[i] == lp {
          SetMarksUpdate(mark, i, null);
          mark := mark[i := null];
          markno := markno - 1;
        }
        i := i + 1;
      }
      forall k | 0 <= k < MAXMARK ensures mark[k] == Unmarked(old(mark), lp)[k] {
        if k >= i {
          NoMarks(mark, k);
          assert mark[k] == mark[i..][k - i] == old(mark)[i..][k - i];
        } else {
          assert mark[k] == mark[..i][k];
        }
      }
    }
  }
}
