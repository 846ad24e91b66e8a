/** The ordering apply_annotations processes spans in:
    `sorted(annotations, key=lambda x: x.start, reverse=True)`, a stable sort,
    so spans with the same start keep their input order. Also the ordering
    by (start, end) that removes the empty-span defect (see README). */
module Sorting {
  import opened Redactions

  /** Non-increasing in `start`. */
  predicate SortedDesc(rs: seq<Redaction>)
  {
    forall i, j :: 0 <= i < j < |rs| ==> rs[i].start >= rs[j].start
  }

  lemma SortedCons(a: Redaction, s: seq<Redaction>)
    requires SortedDesc(s)
    requires forall y :: y in s ==> y.start <= a.start
    ensures SortedDesc([a] + s)
  {
    forall i, j | 0 <= i < j < |[a] + s| ensures ([a] + s)[i].start >= ([a] + s)[j].start {
      assert ([a] + s)[j] == s[j - 1];
      if i > 0 { assert ([a] + s)[i] == s[i - 1]; }
    }
  }

  lemma SortedDescTail(s: seq<Redaction>)
    requires SortedDesc(s) && s != []
    ensures SortedDesc(s[1..])
    ensures forall y :: y in s ==> y.start <= s[0].start
  {
    forall y | y in s ensures y.start <= s[0].start {
      var k :| 0 <= k < |s| && s[k] == y;
    }
  }

  lemma StartBelowHead(x: Redaction, s: seq<Redaction>, tail: seq<Redaction>)
    requires SortedDesc(s) && s != [] && x.start <= s[0].start
    requires multiset(tail) == multiset(s[1..]) + multiset{x}
    ensures forall y :: y in tail ==> y.start <= s[0].start
  {
    SortedDescTail(s);
    forall y | y in tail ensures y.start <= s[0].start {
      assert y in multiset(tail);
      if y != x {
        assert y in s[1..];
        assert y in s;
      }
    }
  }

  /** The spans of `rs` that start at `k`, in their order in `rs`. */
  function WithStart(rs: seq<Redaction>, k: nat): seq<Redaction>
  {
    if rs == [] then []
    else (if rs[0].start == k then [rs[0]] else []) + WithStart(rs[1..], k)
  }

  lemma WithStartCons(a: Redaction, s: seq<Redaction>)
    ensures forall k :: WithStart([a] + s, k) == (if a.start == k then [a] else []) + WithStart(s, k)
  {
    assert ([a] + s)[1..] == s;
  }

  /** Moving `a` behind `b` changes no group of equal starts when the two
      starts differ. */
  lemma WithStartSwap(a: Redaction, b: Redaction, s: seq<Redaction>, tail: seq<Redaction>)
    requires a.start != b.start
    requires forall k :: WithStart(tail, k) == WithStart([a] + s, k)
    ensures forall k :: WithStart([b] + tail, k) == WithStart([a] + ([b] + s), k)
  {
    WithStartCons(b, tail);
    WithStartCons(a, s);
    WithStartCons(b, s);
    WithStartCons(a, [b] + s);
  }

  /** Places `x` in front of the first element whose start is not greater
      than its own, so that it precedes the equal-keyed elements that
      followed it in the input. */
  function InsertByStart(x: Redaction, s: seq<Redaction>): (r: seq<Redaction>)
    requires SortedDesc(s)
    ensures SortedDesc(r)
    ensures multiset(r) == multiset(s) + multiset{x}
  {
    if s == [] then
      [x]
    else if s[0].start <= x.start then
      assert forall y :: y in s ==> y.start <= x.start by {
        SortedDescTail(s);
      }
      SortedCons(x, s);
      [x] + s
    else
      assert s == [s[0]] + s[1..];
      SortedDescTail(s);
      var tail := InsertByStart(x, s[1..]);
      StartBelowHead(x, s, tail);
      SortedCons(s[0], tail);
      [s[0]] + tail
  }

  /** `sorted(rs, key=start, reverse=True)`: ordered by descending start and
      a permutation of `rs`; SortByStartStable adds that the sort is stable. */
  function SortByStartDesc(rs: seq<Redaction>): (r: seq<Redaction>)
    ensures SortedDesc(r)
    ensures multiset(r) == multiset(rs)
  {
    if rs == [] then []
    else
      assert rs == [rs[0]] + rs[1..];
      InsertByStart(rs[0], SortByStartDesc(rs[1..]))
  }

  /** `x` goes in front of every span of `s` that shares its start. */
  lemma {:induction false} InsertByStartStable(x: Redaction, s: seq<Redaction>)
    requires SortedDesc(s)
    ensures forall k :: WithStart(InsertByStart(x, s), k) == WithStart([x] + s, k)
  {
    if s != [] && x.start < s[0].start {
      SortedDescTail(s);
      InsertByStartStable(x, s[1..]);
      assert s == [s[0]] + s[1..];
      WithStartSwap(x, s[0], s[1..], InsertByStart(x, s[1..]));
    }
  }

  /** Python's sort is stable: the spans sharing a start keep their input
      order. */
  lemma {:induction false} SortByStartStable(rs: seq<Redaction>)
    ensures forall k :: WithStart(SortByStartDesc(rs), k) == WithStart(rs, k)
  {
    if rs != [] {
      var tail := SortByStartDesc(rs[1..]);
      SortByStartStable(rs[1..]);
      InsertByStartStable(rs[0], tail);
      WithStartCons(rs[0], tail);
      assert rs == [rs[0]] + rs[1..];
      WithStartCons(rs[0], rs[1..]);
    }
  }

  lemma NonOverlappingCons(a: Redaction, s: seq<Redaction>)
    requires NonOverlapping(s)
    requires forall y :: y in s ==> Disjoint(a, y)
    ensures NonOverlapping([a] + s)
  {
    forall i, j | 0 <= i < j < |[a] + s| ensures Disjoint(([a] + s)[i], ([a] + s)[j]) {
      assert ([a] + s)[j] == s[j - 1] && s[j - 1] in s;
      if i > 0 { assert ([a] + s)[i] == s[i - 1]; }
    }
  }

  lemma NonOverlappingTail(s: seq<Redaction>)
    requires NonOverlapping(s) && s != []
    ensures NonOverlapping(s[1..])
    ensures forall y :: y in s[1..] ==> Disjoint(s[0], y)
  {
    forall i, j | 0 <= i < j < |s[1..]| ensures Disjoint(s[1..][i], s[1..][j]) {
      assert s[1..][i] == s[i + 1] && s[1..][j] == s[j + 1];
    }
    forall y | y in s[1..] ensures Disjoint(s[0], y) {
      var k :| 0 <= k < |s[1..]| && s[1..][k] == y;
      assert s[k + 1] == y;
    }
  }

  lemma {:induction false} InsertByStartNonOverlapping(x: Redaction, s: seq<Redaction>)
    requires SortedDesc(s) && NonOverlapping(s)
    requires forall y :: y in s ==> Disjoint(x, y)
    ensures NonOverlapping(InsertByStart(x, s))
  {
    if s == [] || s[0].start <= x.start {
      NonOverlappingCons(x, s);
    } else {
      SortedDescTail(s);
      NonOverlappingTail(s);
      assert forall y :: y in s[1..] ==> y in s;
      InsertByStartNonOverlapping(x, s[1..]);
      var tail := InsertByStart(x, s[1..]);
      forall y | y in tail ensures Disjoint(s[0], y) {
        assert y in multiset(tail);
        if y == x { assert s[0] in s; }
      }
      NonOverlappingCons(s[0], tail);
    }
  }

  /** Sorting keeps a collection in bounds and free of overlaps. */
  lemma {:induction false} SortedAdmissible(len: nat, rs: seq<Redaction>)
    requires Admissible(len, rs)
    ensures Admissible(len, SortByStartDesc(rs))
  {
    var s := SortByStartDesc(rs);
    forall y | y in s ensures Fits(len, y) {
      assert y in multiset(rs);
    }
    if rs != [] {
      NonOverlappingTail(rs);
      assert forall y :: y in rs[1..] ==> y in rs;
      SortedAdmissible(len, rs[1..]);
      var tail := SortByStartDesc(rs[1..]);
      forall y | y in tail ensures Disjoint(rs[0], y) {
        assert y in multiset(rs[1..]);
      }
      InsertByStartNonOverlapping(rs[0], tail);
    }
  }

  /** Lexicographic (start, end), the key of the corrected ordering. */
  predicate KeyLeq(a: Redaction, b: Redaction)
  {
    a.start < b.start || (a.start == b.start && a.end <= b.end)
  }

  predicate SortedDescByKey(rs: seq<Redaction>)
  {
    forall i, j :: 0 <= i < j < |rs| ==> KeyLeq(rs[j], rs[i])
  }

  lemma SortedByKeyCons(a: Redaction, s: seq<Redaction>)
    requires SortedDescByKey(s)
    requires forall y :: y in s ==> KeyLeq(y, a)
    ensures SortedDescByKey([a] + s)
  {
    forall i, j | 0 <= i < j < |[a] + s| ensures KeyLeq(([a] + s)[j], ([a] + s)[i]) {
      assert ([a] + s)[j] == s[j - 1];
      if i > 0 { assert ([a] + s)[i] == s[i - 1]; }
    }
  }

  lemma SortedByKeyTail(s: seq<Redaction>)
    requires SortedDescByKey(s) && s != []
    ensures SortedDescByKey(s[1..])
    ensures forall y :: y in s ==> KeyLeq(y, s[0])
  {
    forall i, j | 0 <= i < j < |s[1..]| ensures KeyLeq(s[1..][j], s[1..][i]) {
      assert s[1..][j] == s[j + 1] && s[1..][i] == s[i + 1];
    }
    forall y | y in s ensures KeyLeq(y, s[0]) {
      var k :| 0 <= k < |s| && s[k] == y;
    }
  }

  lemma KeyBelowHead(x: Redaction, s: seq<Redaction>, tail: seq<Redaction>)
    requires SortedDescByKey(s) && s != [] && KeyLeq(x, s[0])
    requires multiset(tail) == multiset(s[1..]) + multiset{x}
    ensures forall y :: y in tail ==> KeyLeq(y, s[0])
  {
    SortedByKeyTail(s);
    forall y | y in tail ensures KeyLeq(y, s[0]) {
      assert y in multiset(tail);
      if y != x {
        assert y in s[1..];
        assert y in s;
      }
    }
  }

  /** Places `x` in front of the first element whose key is not greater
      than its own. */
  function InsertByKey(x: Redaction, s: seq<Redaction>): (r: seq<Redaction>)
    requires SortedDescByKey(s)
    ensures SortedDescByKey(r)
    ensures multiset(r) == multiset(s) + multiset{x}
  {
    if s == [] then
      [x]
    else if KeyLeq(s[0], x) then
      assert forall y :: y in s ==> KeyLeq(y, x) by {
        SortedByKeyTail(s);
      }
      SortedByKeyCons(x, s);
      [x] + s
    else
      assert s == [s[0]] + s[1..];
      SortedByKeyTail(s);
      var tail := InsertByKey(x, s[1..]);
      KeyBelowHead(x, s, tail);
      SortedByKeyCons(s[0], tail);
      [s[0]] + tail
  }

  /** `sorted(rs, key=lambda x: (x.start, x.end), reverse=True)`. */
  function SortByKeyDesc(rs: seq<Redaction>): (r: seq<Redaction>)
    ensures SortedDescByKey(r)
    ensures multiset(r) == multiset(rs)
  {
    if rs == [] then []
    else
      assert rs == [rs[0]] + rs[1..];
      InsertByKey(rs[0], SortByKeyDesc(rs[1..]))
  }

  /** The sums over a collection do not depend on the order of its elements. */
  lemma {:induction false} SumsOfInsertByStart(x: Redaction, s: seq<Redaction>, i: nat)
    requires SortedDesc(s)
    ensures Removed(InsertByStart(x, s)) == (x.end - x.start) + Removed(s)
    ensures Inserted(InsertByStart(x, s)) == (|x.text| + 2) + Inserted(s)
    ensures ShiftBefore(InsertByStart(x, s), i) == ShiftBefore([x], i) + ShiftBefore(s, i)
  {
    var r := InsertByStart(x, s);
    assert [x][1..] == [];
    if s == [] || s[0].start <= x.start {
      assert r[0] == x && r[1..] == s;
    } else {
      SumsOfInsertByStart(x, s[1..], i);
      assert r[0] == s[0] && r[1..] == InsertByStart(x, s[1..]);
    }
  }

  lemma {:induction false} SumsOfSortByStart(rs: seq<Redaction>, i: nat)
    ensures Removed(SortByStartDesc(rs)) == Removed(rs)
    ensures Inserted(SortByStartDesc(rs)) == Inserted(rs)
    ensures ShiftBefore(SortByStartDesc(rs), i) == ShiftBefore(rs, i)
  {
    if rs != [] {
      SumsOfSortByStart(rs[1..], i);
      SumsOfInsertByStart(rs[0], SortByStartDesc(rs[1..]), i);
    }
  }

  lemma {:induction false} SumsOfInsertByKey(x: Redaction, s: seq<Redaction>)
    requires SortedDescByKey(s)
    ensures Removed(InsertByKey(x, s)) == (x.end - x.start) + Removed(s)
    ensures Inserted(InsertByKey(x, s)) == (|x.text| + 2) + Inserted(s)
  {
    if s != [] && !KeyLeq(s[0], x) {
      SumsOfInsertByKey(x, s[1..]);
      assert InsertByKey(x, s)[1..] == InsertByKey(x, s[1..]);
    }
  }

  lemma {:induction false} SumsOfSortByKey(rs: seq<Redaction>)
    ensures Removed(SortByKeyDesc(rs)) == Removed(rs)
    ensures Inserted(SortByKeyDesc(rs)) == Inserted(rs)
  {
    if rs != [] {
      SumsOfSortByKey(rs[1..]);
      SumsOfInsertByKey(rs[0], SortByKeyDesc(rs[1..]));
    }
  }
}
