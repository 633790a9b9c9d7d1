/**
  The admin dashboard's `Enrollment.query.order_by(Enrollment.enrollment_date.desc()).limit(5)`:
  the n latest enrollments, latest first. `Latest` computes one such answer; `IsLatest` is
  what any answer of the query satisfies (rows with equal dates may come in any order), and
  `LatestIsLatest` proves the computed answer is one.
*/
module Recent {
  import opened Models

  /** Dates never increase along the sequence. */
  ghost predicate LatestFirst(top: seq<EnrollmentRow>)
  {
    forall i, j :: 0 <= i < j < |top| ==> top[j].enrolledAt <= top[i].enrolledAt
  }

  function Min(a: nat, b: nat): nat
  {
    if a <= b then a else b
  }

  /**
    top answers the query with limit n over es: it has min(n, |es|) rows, latest first,
    all drawn from es, and no row left out is later than the last row kept.
  */
  ghost predicate IsLatest(es: seq<EnrollmentRow>, n: nat, top: seq<EnrollmentRow>)
  {
    && |top| == Min(n, |es|)
    && LatestFirst(top)
    && multiset(top) <= multiset(es)
    && (|top| > 0 ==> NoneLater(multiset(es) - multiset(top), top[|top| - 1].enrolledAt))
  }

  /** No row of m is dated after t. */
  ghost predicate NoneLater(m: multiset<EnrollmentRow>, t: int)
  {
    forall e :: e in m ==> e.enrolledAt <= t
  }

  /** Where x goes in a latest-first sequence: after every row dated no earlier than x. */
  function Slot(top: seq<EnrollmentRow>, x: EnrollmentRow): (p: nat)
    ensures p <= |top|
    ensures forall i :: 0 <= i < p ==> x.enrolledAt <= top[i].enrolledAt
    ensures p < |top| ==> top[p].enrolledAt < x.enrolledAt
  {
    if top == [] || top[0].enrolledAt < x.enrolledAt then 0 else 1 + Slot(top[1..], x)
  }

  /** x inserted into a latest-first sequence. */
  function Insert(top: seq<EnrollmentRow>, x: EnrollmentRow): seq<EnrollmentRow>
  {
    var p := Slot(top, x);
    top[..p] + [x] + top[p..]
  }

  function Take(s: seq<EnrollmentRow>, n: nat): seq<EnrollmentRow>
  {
    if |s| <= n then s else s[..n]
  }

  /** The n latest rows of es, computed by inserting the rows one at a time and keeping n. */
  function Latest(es: seq<EnrollmentRow>, n: nat): seq<EnrollmentRow>
  {
    if es == [] then [] else Take(Insert(Latest(es[..|es| - 1], n), es[|es| - 1]), n)
  }

  /** The rows of the inserted sequence: top's rows before the slot, x, then top's rows after. */
  lemma InsertAt(top: seq<EnrollmentRow>, x: EnrollmentRow, i: nat)
    requires i <= |top|
    ensures |Insert(top, x)| == |top| + 1
    ensures var p := Slot(top, x);
      Insert(top, x)[i] == if i < p then top[i] else if i == p then x else top[i - 1]
  {
  }

  /** Inserting keeps the sequence latest first. */
  lemma InsertKeepsOrder(top: seq<EnrollmentRow>, x: EnrollmentRow)
    requires LatestFirst(top)
    ensures LatestFirst(Insert(top, x))
  {
    var ins := Insert(top, x);
    var p := Slot(top, x);
    forall i, j | 0 <= i < j < |ins|
      ensures ins[j].enrolledAt <= ins[i].enrolledAt
    {
      InsertAt(top, x, i);
      InsertAt(top, x, j);
      if i < p && p < j {
        assert top[j - 1].enrolledAt <= top[i].enrolledAt;
      }
    }
  }

  /** Inserting adds exactly x. */
  lemma InsertAdds(top: seq<EnrollmentRow>, x: EnrollmentRow)
    ensures multiset(Insert(top, x)) == multiset(top) + multiset{x}
  {
    var p := Slot(top, x);
    assert top == top[..p] + top[p..];
  }

  /** The empty answer answers the query over no rows. */
  lemma LatestOfNone(n: nat)
    ensures IsLatest([], n, [])
  {
  }

  /** Each row of the inserted sequence is no earlier than the row of top at the same place. */
  lemma InsertRaises(top: seq<EnrollmentRow>, x: EnrollmentRow, k: nat)
    requires LatestFirst(top) && k < |top|
    ensures top[k].enrolledAt <= Insert(top, x)[k].enrolledAt
  {
    InsertAt(top, x, k);
    if k > Slot(top, x) {
      assert top[k].enrolledAt <= top[k - 1].enrolledAt;
    }
  }

  /**
    The rows left out after one more step: those left out before, plus the one dropped.
    Here t is the old answer over the old rows i, x the new row, and kept + {d} the
    inserted answer.
  */
  lemma LeftOutStep(i: multiset<EnrollmentRow>, t: multiset<EnrollmentRow>, x: EnrollmentRow,
                    kept: multiset<EnrollmentRow>, d: EnrollmentRow)
    requires t <= i && t + multiset{x} == kept + multiset{d}
    ensures (i + multiset{x}) - kept == (i - t) + multiset{d}
  {
    forall z
      ensures ((i + multiset{x}) - kept)[z] == ((i - t) + multiset{d})[z]
    {
      assert t[z] <= i[z];
      assert (t + multiset{x})[z] == (kept + multiset{d})[z];
    }
  }

  /** With every row the same size or smaller, a sub-multiset of equal size is the whole. */
  lemma MultisetFull(a: multiset<EnrollmentRow>, b: multiset<EnrollmentRow>)
    requires a <= b && |a| == |b|
    ensures a == b
  {
    var d := b - a;
    assert b == a + d;
    assert |d| == 0;
  }

  /** One more row while the answer is short of the limit: the inserted answer keeps every row. */
  lemma LatestGrows(init: seq<EnrollmentRow>, x: EnrollmentRow, n: nat, top: seq<EnrollmentRow>)
    requires IsLatest(init, n, top) && |top| < n
    ensures IsLatest(init + [x], n, Take(Insert(top, x), n))
  {
    InsertKeepsOrder(top, x);
    InsertAdds(top, x);
    MultisetFull(multiset(top), multiset(init));
    assert multiset(init + [x]) == multiset(init) + multiset{x};
    assert multiset(init + [x]) - multiset(Insert(top, x)) == multiset{};
  }

  /** One more row with the answer at the limit: insert it and drop the last row. */
  lemma LatestDrops(init: seq<EnrollmentRow>, x: EnrollmentRow, n: nat, top: seq<EnrollmentRow>)
    requires IsLatest(init, n, top) && |top| == n > 0
    ensures IsLatest(init + [x], n, Take(Insert(top, x), n))
  {
    var ins := Insert(top, x);
    InsertKeepsOrder(top, x);
    InsertAdds(top, x);
    InsertRaises(top, x, n - 1);
    PrefixLatestFirst(ins, n);
    DropLast(init, x, n, top, ins);
  }

  /**
    The step of LatestDrops on the inserted sequence ins alone: its first n rows are latest
    first, the row after them no later, it holds the old answer's rows and x, and its n-th
    row is no earlier than the old answer's last.
  */
  lemma DropLast(init: seq<EnrollmentRow>, x: EnrollmentRow, n: nat, top: seq<EnrollmentRow>, ins: seq<EnrollmentRow>)
    requires |top| == n > 0 && |init| >= n
    requires multiset(top) <= multiset(init) && NoneLater(multiset(init) - multiset(top), top[n - 1].enrolledAt)
    requires |ins| == n + 1 && LatestFirst(ins[..n]) && ins[n].enrolledAt <= ins[n - 1].enrolledAt
    requires multiset(ins) == multiset(top) + multiset{x}
    requires top[n - 1].enrolledAt <= ins[n - 1].enrolledAt
    ensures IsLatest(init + [x], n, ins[..n])
  {
    var kept := ins[..n];
    SplitLast(ins);
    SplitLast(init + [x]);
    assert (init + [x])[..|init|] == init;
    DroppedIsDrawn(multiset(init), multiset(top), x, multiset(kept), ins[n]);
    LeftOutStep(multiset(init), multiset(top), x, multiset(kept), ins[n]);
    LeftOutNoLater(multiset(init) - multiset(top), ins[n], top[n - 1].enrolledAt, kept[n - 1].enrolledAt);
  }

  /** A prefix of a latest-first sequence is latest first, and the row after it is no later than its last. */
  lemma PrefixLatestFirst(s: seq<EnrollmentRow>, n: nat)
    requires LatestFirst(s) && 0 < n < |s|
    ensures LatestFirst(s[..n]) && s[n].enrolledAt <= s[n - 1].enrolledAt
  {
  }

  /** A sequence is its prefix followed by its last row. */
  lemma SplitLast(s: seq<EnrollmentRow>)
    requires |s| > 0
    ensures multiset(s) == multiset(s[..|s| - 1]) + multiset{s[|s| - 1]}
  {
    assert s == s[..|s| - 1] + [s[|s| - 1]];
  }

  /** Dropping d from the old answer plus x leaves rows drawn from the old rows plus x. */
  lemma DroppedIsDrawn(i: multiset<EnrollmentRow>, t: multiset<EnrollmentRow>, x: EnrollmentRow,
                       kept: multiset<EnrollmentRow>, d: EnrollmentRow)
    requires t <= i && t + multiset{x} == kept + multiset{d}
    ensures kept <= i + multiset{x}
  {
    forall z
      ensures kept[z] <= (i + multiset{x})[z]
    {
      assert (t + multiset{x})[z] == (kept + multiset{d})[z];
    }
  }

  /** The rows left out stay no later than the new last row when the dropped one is. */
  lemma LeftOutNoLater(out: multiset<EnrollmentRow>, d: EnrollmentRow, before: int, floor: int)
    requires NoneLater(out, before) && before <= floor && d.enrolledAt <= floor
    ensures NoneLater(out + multiset{d}, floor)
  {
  }

  /** One more row: insert it and drop whatever falls past the limit. */
  lemma LatestStep(init: seq<EnrollmentRow>, x: EnrollmentRow, n: nat, top: seq<EnrollmentRow>)
    requires IsLatest(init, n, top)
    ensures IsLatest(init + [x], n, Take(Insert(top, x), n))
  {
    if n == 0 {
    } else if |top| < n {
      LatestGrows(init, x, n, top);
    } else {
      LatestDrops(init, x, n, top);
    }
  }

  /** The computed answer is an answer of the query. */
  lemma {:induction false} LatestIsLatest(es: seq<EnrollmentRow>, n: nat)
    ensures IsLatest(es, n, Latest(es, n))
  {
    if es == [] {
      LatestOfNone(n);
    } else {
      var init := es[..|es| - 1];
      LatestIsLatest(init, n);
      assert es == init + [es[|es| - 1]];
      LatestStep(init, es[|es| - 1], n, Latest(init, n));
    }
  }
}
