/** The loop of apply_annotations over spans ordered by descending start,
    for any in-bounds, non-overlapping collection, empty spans included.
    Each step leaves the narrative untouched in front of the span it edits,
    keeps every character outside the spans, in order, at its shifted
    offset, and changes the length by exactly the span's own change. */
module Splicing {
  import opened Redactions
  import opened Sorting

  /** The loop body applied to an already ordered sequence of spans, first
      span first. */
  function SpliceAll(s: string, rs: seq<Redaction>): (r: string)
    ensures rs == [] ==> r == s
    ensures rs != [] ==> |Tag(rs[|rs| - 1])| <= |r|
  {
    if rs == [] then s else Splice(SpliceAll(s, rs[..|rs| - 1]), rs[|rs| - 1])
  }

  lemma SpliceAllStep(n: string, s: seq<Redaction>, i: nat)
    requires i < |s|
    ensures SpliceAll(n, s[..i + 1]) == Splice(SpliceAll(n, s[..i]), s[i])
  {
    assert s[..i + 1][..i] == s[..i];
  }

  lemma {:induction false} ShiftSnoc(rs: seq<Redaction>, r: Redaction, x: nat)
    ensures ShiftBefore(rs + [r], x) == ShiftBefore(rs, x) + (if r.end <= x then Delta(r) else 0)
  {
    if rs == [] {
      assert ([] + [r])[1..] == [];
    } else {
      assert (rs + [r])[1..] == rs[1..] + [r];
      ShiftSnoc(rs[1..], r, x);
    }
  }

  lemma CoveredSnoc(rs: seq<Redaction>, r: Redaction, p: nat)
    ensures Covered(rs + [r], p) <==> Covered(rs, p) || r.start <= p < r.end
  {
    if Covered(rs, p) {
      var y :| y in rs && y.start <= p < y.end;
      assert y in rs + [r];
    }
    if r.start <= p < r.end {
      assert r in rs + [r];
    }
  }

  /** Only empty spans end at or before `x`, and each of them lengthens the
      text. */
  lemma {:induction false} ShiftNonNeg(rs: seq<Redaction>, x: nat)
    requires forall y :: y in rs && y.end <= x ==> y.start == y.end
    ensures 0 <= ShiftBefore(rs, x)
  {
    if rs != [] {
      assert rs[0] in rs;
      assert forall y :: y in rs[1..] ==> y in rs;
      ShiftNonNeg(rs[1..], x);
    }
  }

  /** No span ends at or before `x`. */
  lemma {:induction false} ShiftZero(rs: seq<Redaction>, x: nat)
    requires forall y :: y in rs ==> x < y.end
    ensures ShiftBefore(rs, x) == 0
  {
    if rs != [] {
      assert rs[0] in rs;
      assert forall y :: y in rs[1..] ==> y in rs;
      ShiftZero(rs[1..], x);
    }
  }

  /** Every narrative character from `m` on that lies outside the spans
      `done` sits, unchanged, at its shifted offset in `t`, at or past `m`. */
  predicate KeepsText(n: string, t: string, done: seq<Redaction>, m: nat)
  {
    forall p :: m <= p < |n| && !Covered(done, p) ==>
      m <= Pos(done, p) < |t| && t[Pos(done, p)] == n[p]
  }

  /** Those characters keep their relative order. */
  predicate KeepsOrder(n: string, done: seq<Redaction>, m: nat)
  {
    forall p, q :: m <= p < q < |n| && !Covered(done, p) && !Covered(done, q) ==>
      Pos(done, p) < Pos(done, q)
  }

  /** What holds of the text `t` once the spans `done` have been applied,
      the last of them starting at `m`: the narrative is untouched in front
      of `m`, the length has changed by the spans' own changes, and the text
      outside the spans is kept, in order. */
  predicate Keeps(n: string, t: string, done: seq<Redaction>, m: nat)
  {
    m <= |n| && m <= |t| && t[..m] == n[..m] &&
    |t| == |n| + ShiftBefore(done, |n|) &&
    KeepsText(n, t, done, m) && KeepsOrder(n, done, m)
  }

  /** `r` may be applied next: it starts no later than `m`, lies inside the
      narrative, overlaps none of the spans already applied (all of which
      start at or after `m`), and reaches past `m` only when it starts
      there. */
  predicate Next(n: string, done: seq<Redaction>, m: nat, r: Redaction)
  {
    r.start <= m && r.start <= r.end <= |n| && (r.end <= m || r.start == m) &&
    forall y :: y in done ==> m <= y.start <= y.end && Disjoint(y, r)
  }

  /** When `r` reaches past `m`, the narrative from `m` to `r.end` is still
      uncovered, and only empty spans end before `r` does. */
  lemma GroupFacts(n: string, done: seq<Redaction>, m: nat, r: Redaction)
    requires Next(n, done, m, r) && m < r.end
    ensures !Covered(done, r.end - 1)
    ensures 0 <= ShiftBefore(done, r.end - 1)
  {
    forall y | y in done ensures !(y.start <= r.end - 1 < y.end) {
    }
    ShiftNonNeg(done, r.end - 1);
  }

  /** The next span fits in the text: the clamping of Python's slices plays
      no part. */
  lemma StepFits(n: string, t: string, done: seq<Redaction>, m: nat, r: Redaction)
    requires Keeps(n, t, done, m) && Next(n, done, m, r)
    ensures r.end <= |t|
  {
    if m < r.end {
      GroupFacts(n, done, m, r);
    }
  }

  lemma StepPrefixLength(n: string, t: string, done: seq<Redaction>, m: nat, r: Redaction)
    requires Keeps(n, t, done, m) && Next(n, done, m, r)
    ensures r.start <= |Splice(t, r)| && Splice(t, r)[..r.start] == n[..r.start]
    ensures |Splice(t, r)| == |n| + ShiftBefore(done + [r], |n|)
  {
    StepFits(n, t, done, m, r);
    SpliceFits(t, r);
    assert t[..m][..r.start] == t[..r.start];
    assert n[..m][..r.start] == n[..r.start];
    ShiftSnoc(done, r, |n|);
  }

  /** Text at or past `r.end` in `t` moves by `r`'s change of length. */
  lemma SpliceAfter(t: string, r: Redaction, k: nat)
    requires r.start <= r.end <= k < |t|
    ensures 0 <= k + Delta(r) < |Splice(t, r)| && Splice(t, r)[k + Delta(r)] == t[k]
  {
    SpliceFits(t, r);
    var a := t[..r.start] + "<" + r.text + ">";
    assert Splice(t, r) == a + t[r.end..];
    assert k + Delta(r) == |a| + (k - r.end);
  }

  /** An uncovered character at or past `m` moves with the text after `r`. */
  lemma StepTextRight(n: string, t: string, done: seq<Redaction>, m: nat, r: Redaction, p: nat)
    requires Keeps(n, t, done, m) && Next(n, done, m, r)
    requires m <= p < |n| && r.end <= p && !Covered(done, p)
    ensures r.start <= Pos(done, p) + Delta(r) < |Splice(t, r)|
    ensures Splice(t, r)[Pos(done, p) + Delta(r)] == n[p]
  {
    assert r.end <= Pos(done, p) by {
      if m < r.end {
        GroupFacts(n, done, m, r);
        assert Pos(done, r.end - 1) < Pos(done, p);
      }
    }
    SpliceAfter(t, r, Pos(done, p));
  }

  /** An uncovered character between `r.end` and `m` is still at its own
      offset, and moves with the text after `r`. */
  lemma StepTextLeft(n: string, t: string, done: seq<Redaction>, m: nat, r: Redaction, p: nat)
    requires Keeps(n, t, done, m) && Next(n, done, m, r)
    requires r.end <= p < m
    ensures Pos(done, p) == p
    ensures r.start <= p + Delta(r) < |Splice(t, r)| && Splice(t, r)[p + Delta(r)] == n[p]
  {
    ShiftZero(done, p);
    assert t[p] == t[..m][p] == n[..m][p] == n[p];
    SpliceAfter(t, r, p);
  }

  lemma StepTextAt(n: string, t: string, done: seq<Redaction>, m: nat, r: Redaction, p: nat)
    requires Keeps(n, t, done, m) && Next(n, done, m, r)
    requires r.start <= p < |n| && !Covered(done + [r], p)
    ensures r.start <= Pos(done + [r], p) < |Splice(t, r)|
    ensures Splice(t, r)[Pos(done + [r], p)] == n[p]
  {
    CoveredSnoc(done, r, p);
    ShiftSnoc(done, r, p);
    if m <= p {
      StepTextRight(n, t, done, m, r, p);
    } else {
      StepTextLeft(n, t, done, m, r, p);
    }
  }

  lemma StepText(n: string, t: string, done: seq<Redaction>, m: nat, r: Redaction)
    requires Keeps(n, t, done, m) && Next(n, done, m, r)
    ensures KeepsText(n, Splice(t, r), done + [r], r.start)
  {
    forall p | r.start <= p < |n| && !Covered(done + [r], p)
      ensures r.start <= Pos(done + [r], p) < |Splice(t, r)|
      ensures Splice(t, r)[Pos(done + [r], p)] == n[p]
    {
      StepTextAt(n, t, done, m, r, p);
    }
  }

  lemma StepOrder(n: string, t: string, done: seq<Redaction>, m: nat, r: Redaction)
    requires Keeps(n, t, done, m) && Next(n, done, m, r)
    ensures KeepsOrder(n, done + [r], r.start)
  {
    forall p, q | r.start <= p < q < |n| && !Covered(done + [r], p) && !Covered(done + [r], q)
      ensures Pos(done + [r], p) < Pos(done + [r], q)
    {
      CoveredSnoc(done, r, p);
      CoveredSnoc(done, r, q);
      ShiftSnoc(done, r, p);
      ShiftSnoc(done, r, q);
      if p < m {
        ShiftZero(done, p);
        if q < m {
          ShiftZero(done, q);
        }
      }
    }
  }

  /** One step of the loop keeps everything `Keeps` says, with the mark moved
      to the start of the span just applied. */
  lemma StepKeeps(n: string, t: string, done: seq<Redaction>, m: nat, r: Redaction)
    requires Keeps(n, t, done, m) && Next(n, done, m, r)
    ensures Keeps(n, Splice(t, r), done + [r], r.start)
  {
    StepPrefixLength(n, t, done, m, r);
    StepText(n, t, done, m, r);
    StepOrder(n, t, done, m, r);
  }

  /** The start of the span applied last, or the narrative's end before the
      first step. */
  function Mark(n: string, s: seq<Redaction>, i: nat): nat
    requires i <= |s|
  {
    if i == 0 then |n| else s[i - 1].start
  }

  /** In a descending-by-start admissible sequence, each span may be
      applied after the ones before it. */
  lemma NextOfSorted(n: string, s: seq<Redaction>, i: nat)
    requires SortedDesc(s) && Admissible(|n|, s) && i < |s|
    ensures Next(n, s[..i], Mark(n, s, i), s[i])
  {
    assert s[i] in s;
    if i > 0 {
      assert s[i - 1] in s;
      assert Disjoint(s[i - 1], s[i]);
    }
    forall y | y in s[..i] ensures Mark(n, s, i) <= y.start <= y.end && Disjoint(y, s[i]) {
      var k :| 0 <= k < i && s[k] == y;
      assert y in s;
    }
  }

  lemma KeepsStart(n: string, s: seq<Redaction>)
    ensures Keeps(n, SpliceAll(n, s[..0]), s[..0], Mark(n, s, 0))
  {
    assert s[..0] == [];
  }

  lemma KeepsRename(n: string, t: string, done: seq<Redaction>, m: nat,
                    t': string, done': seq<Redaction>, m': nat)
    requires Keeps(n, t, done, m) && t == t' && done == done' && m == m'
    ensures Keeps(n, t', done', m')
  {
  }

  lemma PrefixSnoc(s: seq<Redaction>, i: nat)
    requires 0 < i <= |s|
    ensures s[..i - 1] + [s[i - 1]] == s[..i]
  {
  }

  lemma KeepsLift(n: string, s: seq<Redaction>, i: nat)
    requires 0 < i <= |s|
    requires Keeps(n, SpliceAll(n, s[..i - 1]), s[..i - 1], Mark(n, s, i - 1))
    requires Next(n, s[..i - 1], Mark(n, s, i - 1), s[i - 1])
    ensures Keeps(n, SpliceAll(n, s[..i]), s[..i], Mark(n, s, i))
  {
    var done, r := s[..i - 1], s[i - 1];
    StepKeeps(n, SpliceAll(n, done), done, Mark(n, s, i - 1), r);
    SpliceAllStep(n, s, i - 1);
    PrefixSnoc(s, i);
    KeepsRename(n, Splice(SpliceAll(n, done), r), done + [r], r.start,
                SpliceAll(n, s[..i]), s[..i], Mark(n, s, i));
  }

  lemma {:induction false} KeepsOfSorted(n: string, s: seq<Redaction>, i: nat)
    requires SortedDesc(s) && Admissible(|n|, s) && i <= |s|
    ensures Keeps(n, SpliceAll(n, s[..i]), s[..i], Mark(n, s, i))
  {
    if i == 0 {
      KeepsStart(n, s);
    } else {
      KeepsOfSorted(n, s, i - 1);
      NextOfSorted(n, s, i - 1);
      KeepsLift(n, s, i);
    }
  }

  /** After the whole loop: every span starts at or after the mark. */
  lemma KeepsAll(n: string, s: seq<Redaction>)
    requires SortedDesc(s) && Admissible(|n|, s)
    ensures Keeps(n, SpliceAll(n, s), s, Mark(n, s, |s|))
  {
    KeepsOfSorted(n, s, |s|);
    assert s[..|s|] == s;
  }

  lemma MarkBelow(n: string, s: seq<Redaction>)
    requires SortedDesc(s) && Admissible(|n|, s)
    ensures forall y :: y in s ==> Mark(n, s, |s|) <= y.start <= y.end
  {
    forall y | y in s ensures Mark(n, s, |s|) <= y.start <= y.end {
      var k :| 0 <= k < |s| && s[k] == y;
    }
  }

  /** The loop over a descending-by-start admissible sequence changes the
      length by the placeholders inserted less the text removed. */
  lemma SortedSpliceLength(n: string, s: seq<Redaction>)
    requires SortedDesc(s) && Admissible(|n|, s)
    ensures |SpliceAll(n, s)| == |n| - Removed(s) + Inserted(s)
  {
    KeepsAll(n, s);
    SumOfDeltas(s, |n|);
  }

  /** Left of the mark nothing has moved. */
  lemma UnmovedLeftOfMark(n: string, s: seq<Redaction>, p: nat)
    requires SortedDesc(s) && Admissible(|n|, s) && p < Mark(n, s, |s|)
    ensures Pos(s, p) == p
  {
    MarkBelow(n, s);
    ShiftZero(s, p);
  }

  /** Every character outside the spans lands, unchanged, at `Pos`. */
  lemma SortedSpliceAt(n: string, s: seq<Redaction>, p: nat)
    requires SortedDesc(s) && Admissible(|n|, s)
    requires p < |n| && !Covered(s, p)
    ensures 0 <= Pos(s, p) < |SpliceAll(n, s)| && SpliceAll(n, s)[Pos(s, p)] == n[p]
  {
    var m, t := Mark(n, s, |s|), SpliceAll(n, s);
    if p < m {
      UnmovedLeftOfMark(n, s, p);
      assert m <= |t| && t[..m] == n[..m] by {
        KeepsAll(n, s);
      }
      assert t[p] == t[..m][p];
    } else {
      assert KeepsText(n, t, s, m) by {
        KeepsAll(n, s);
      }
    }
  }

  /** Characters outside the spans keep their relative order. */
  lemma SortedSpliceInOrder(n: string, s: seq<Redaction>, p: nat, q: nat)
    requires SortedDesc(s) && Admissible(|n|, s)
    requires p < q < |n| && !Covered(s, p) && !Covered(s, q)
    ensures Pos(s, p) < Pos(s, q)
  {
    var m, t := Mark(n, s, |s|), SpliceAll(n, s);
    if p < m {
      UnmovedLeftOfMark(n, s, p);
      if q < m {
        UnmovedLeftOfMark(n, s, q);
      } else {
        assert KeepsText(n, t, s, m) by {
          KeepsAll(n, s);
        }
      }
    } else {
      assert KeepsOrder(n, s, m) by {
        KeepsAll(n, s);
      }
    }
  }
}
