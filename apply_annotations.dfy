/** `apply_annotations`: rebuild the narrative with every span replaced by its
    placeholder, editing from the rightmost span to the leftmost so that the
    offsets of the spans still to be applied stay valid. */
module Applier {
  import opened Redactions
  import opened Sorting
  import opened Splicing

  /** Right-to-left order: the first span fits in `len`, and the others are
      right-to-left in front of it. */
  predicate Chained(len: nat, cs: seq<Redaction>)
    decreases |cs|
  {
    cs == [] || (Fits(len, cs[0]) && Chained(cs[0].start, cs[1..]))
  }

  lemma ChainedTail(len: nat, cs: seq<Redaction>)
    requires Chained(len, cs) && cs != []
    ensures Fits(len, cs[0]) && Chained(cs[0].start, cs[1..])
  {
  }

  lemma ChainedWeaken(a: nat, b: nat, cs: seq<Redaction>)
    requires a <= b && Chained(a, cs)
    ensures Chained(b, cs)
  {
  }

  /** Every span of a right-to-left sequence fits in `len`. */
  lemma {:induction false} ChainedFits(len: nat, cs: seq<Redaction>)
    requires Chained(len, cs)
    ensures forall r :: r in cs ==> Fits(len, r)
    decreases |cs|
  {
    if cs != [] {
      ChainedFits(cs[0].start, cs[1..]);
      assert cs == [cs[0]] + cs[1..];
    }
  }

  /** Each span ends at or before the start of every span in front of it. */
  lemma {:induction false} ChainedOrder(len: nat, cs: seq<Redaction>)
    requires Chained(len, cs)
    ensures forall i, j :: 0 <= i < j < |cs| ==> cs[j].end <= cs[i].start
    decreases |cs|
  {
    if cs != [] {
      ChainedFits(cs[0].start, cs[1..]);
      ChainedOrder(cs[0].start, cs[1..]);
      forall i, j | 0 <= i < j < |cs| ensures cs[j].end <= cs[i].start {
        assert cs[j] == cs[1..][j - 1] && cs[j] in cs[1..];
        if i > 0 { assert cs[i] == cs[1..][i - 1]; }
      }
    }
  }

  /** Dropping the rightmost span keeps the order right-to-left. */
  lemma ChainedRest(len: nat, cs: seq<Redaction>)
    requires Chained(len, cs) && cs != []
    ensures Chained(len, cs[1..]) && Fits(len, cs[0])
  {
    ChainedWeaken(cs[0].start, len, cs[1..]);
  }

  /** A span that ends before the rightmost one starts can go in front. */
  lemma ChainedFront(len: nat, x: Redaction, s: seq<Redaction>)
    requires Chained(len, s) && Fits(len, x)
    requires s != [] ==> s[0].end <= x.start
    ensures Chained(len, [x] + s)
  {
    assert ([x] + s)[0] == x && ([x] + s)[1..] == s;
  }

  lemma ChainedCons(len: nat, a: Redaction, s: seq<Redaction>)
    requires Chained(len, s) && Fits(len, a)
    requires forall y :: y in s ==> y.end <= a.start
    ensures Chained(len, [a] + s)
  {
    if s != [] {
      assert s[0] in s;
    }
    ChainedFront(len, a, s);
  }

  lemma {:induction false} ChainedPrefix(len: nat, cs: seq<Redaction>, i: nat)
    requires Chained(len, cs) && i <= |cs|
    ensures Chained(len, cs[..i])
    decreases i
  {
    if i > 0 {
      ChainedPrefix(cs[0].start, cs[1..], i - 1);
      assert cs[..i][0] == cs[0] && cs[..i][1..] == cs[1..][..i - 1];
    }
  }

  /** What `apply_annotations(narrative, annotations)` returns. */
  function Redacted(narrative: string, annotations: seq<Redaction>): (r: string)
    ensures annotations == [] ==> r == narrative
  {
    SpliceAll(narrative, SortByStartDesc(annotations))
  }

  /** The intended layout of the redacted text, written without any editing
      loop: the redacted text before the rightmost span, then that span's
      placeholder, then the untouched rest of the narrative. */
  function Masked(n: string, cs: seq<Redaction>): string
    requires Chained(|n|, cs)
    decreases cs
  {
    if cs == [] then n
    else
      Masked(n[..cs[0].start], cs[1..]) + Tag(cs[0]) + n[cs[0].end..]
  }

  /** The layout is as long as the narrative, less the masked text, plus the
      placeholders. */
  lemma {:induction false} MaskedLength(n: string, cs: seq<Redaction>)
    requires Chained(|n|, cs)
    ensures |Masked(n, cs)| == |n| - Removed(cs) + Inserted(cs)
    decreases cs
  {
    if cs != [] {
      MaskedLength(n[..cs[0].start], cs[1..]);
    }
  }

  lemma MaskedPrefixLift(n: string, cs: seq<Redaction>, k: nat)
    requires Chained(|n|, cs) && cs != [] && k <= cs[0].start
    requires cs[0].start <= |n| && Chained(cs[0].start, cs[1..])
    requires k <= |Masked(n[..cs[0].start], cs[1..])|
    requires Masked(n[..cs[0].start], cs[1..])[..k] == n[..cs[0].start][..k]
    ensures k <= |Masked(n, cs)| && Masked(n, cs)[..k] == n[..k]
  {
    assert n[..cs[0].start][..k] == n[..k];
    MaskedCons(n, cs);
    var m' := Masked(n[..cs[0].start], cs[1..]);
    SliceOfPrefix(m', Tag(cs[0]), 0, k);
    SliceOfPrefix(m' + Tag(cs[0]), n[cs[0].end..], 0, k);
  }

  /** The right-to-left idea: the text in front of every remaining span is
      still the narrative's own text. */
  lemma {:induction false} MaskedPrefix(n: string, cs: seq<Redaction>, k: nat)
    requires Chained(|n|, cs) && k <= |n|
    requires forall r :: r in cs ==> k <= r.start
    ensures k <= |Masked(n, cs)| && Masked(n, cs)[..k] == n[..k]
    decreases cs
  {
    if cs != [] {
      ChainedTail(|n|, cs);
      assert cs[0] in cs;
      assert forall r :: r in cs[1..] ==> k <= r.start by {
        assert forall r :: r in cs[1..] ==> r in cs;
      }
      MaskedPrefix(n[..cs[0].start], cs[1..], k);
      MaskedPrefixLift(n, cs, k);
    }
  }

  /** Dropping the leftmost span keeps the order right-to-left; that span
      ends before every other one starts. */
  lemma {:induction false} ChainedInit(len: nat, cs: seq<Redaction>)
    requires Chained(len, cs) && cs != []
    ensures Chained(len, cs[..|cs| - 1])
    ensures forall r :: r in cs[..|cs| - 1] ==> cs[|cs| - 1].end <= r.start
    decreases |cs|
  {
    ChainedPrefix(len, cs, |cs| - 1);
    ChainedOrder(len, cs);
    forall r | r in cs[..|cs| - 1] ensures cs[|cs| - 1].end <= r.start {
      var k :| 0 <= k < |cs| - 1 && cs[k] == r;
    }
  }

  lemma MaskedCons(n: string, cs: seq<Redaction>)
    requires Chained(|n|, cs) && cs != []
    ensures cs[0].start <= cs[0].end <= |n| && Chained(cs[0].start, cs[1..])
    ensures Masked(n, cs) == Masked(n[..cs[0].start], cs[1..]) + Tag(cs[0]) + n[cs[0].end..]
  {
  }

  /** The span at the far left fits in the layout of the spans to its
      right. */
  lemma InitFits(n: string, cs: seq<Redaction>)
    requires Chained(|n|, cs) && cs != []
    ensures Chained(|n|, cs[..|cs| - 1])
    ensures Fits(|Masked(n, cs[..|cs| - 1])|, cs[|cs| - 1])
  {
    ChainedInit(|n|, cs);
    ChainedFits(|n|, cs);
    assert cs[|cs| - 1] in cs;
    MaskedPrefix(n, cs[..|cs| - 1], cs[|cs| - 1].end);
  }

  lemma MaskedSnocLift(n: string, cs: seq<Redaction>)
    requires Chained(|n|, cs) && 2 <= |cs|
    requires Chained(|n|, cs[..|cs| - 1])
    requires cs[0].start <= |n| && Chained(cs[0].start, cs[1..])
    requires Chained(cs[0].start, cs[1..][..|cs[1..]| - 1])
    requires Masked(n[..cs[0].start], cs[1..])
             == Splice(Masked(n[..cs[0].start], cs[1..][..|cs[1..]| - 1]), cs[1..][|cs[1..]| - 1])
    ensures Masked(n, cs) == Splice(Masked(n, cs[..|cs| - 1]), cs[|cs| - 1])
  {
    var init, c, n', rest := cs[..|cs| - 1], cs[0], n[..cs[0].start], cs[1..];
    var last := rest[|rest| - 1];
    var x := Masked(n', rest[..|rest| - 1]);
    assert Masked(n, cs) == Masked(n', rest) + Tag(c) + n[c.end..] by {
      MaskedCons(n, cs);
    }
    assert Masked(n, init) == x + Tag(c) + n[c.end..] by {
      assert init[0] == c && init[1..] == rest[..|rest| - 1];
      MaskedCons(n, init);
    }
    assert Fits(|x|, last) by {
      InitFits(n', rest);
    }
    SpliceAppend(x, Tag(c), n[c.end..], last);
    assert last == cs[|cs| - 1];
  }

  /** Applying the leftmost span last is the same as laying it out with the
      others. */
  lemma {:induction false} MaskedSnoc(n: string, cs: seq<Redaction>)
    requires Chained(|n|, cs) && cs != []
    ensures Chained(|n|, cs[..|cs| - 1])
    ensures Masked(n, cs) == Splice(Masked(n, cs[..|cs| - 1]), cs[|cs| - 1])
    decreases cs
  {
    ChainedInit(|n|, cs);
    assert cs[0] in cs;
    if |cs| == 1 {
      SpliceFits(n, cs[0]);
    } else {
      ChainedTail(|n|, cs);
      MaskedSnoc(n[..cs[0].start], cs[1..]);
      MaskedSnocLift(n, cs);
    }
  }

  /** The loop over a right-to-left sequence produces the intended layout. */
  lemma {:induction false} SpliceAllIsMasked(n: string, cs: seq<Redaction>)
    requires Chained(|n|, cs)
    ensures SpliceAll(n, cs) == Masked(n, cs)
  {
    if cs != [] {
      MaskedSnoc(n, cs);
      SpliceAllIsMasked(n, cs[..|cs| - 1]);
    }
  }

  /** Everything in the tail, and the span inserted into it, lies left of
      the head. */
  lemma BelowHead(len: nat, s: seq<Redaction>, x: Redaction, tail: seq<Redaction>)
    requires Chained(len, s) && s != [] && x.end <= s[0].start
    requires multiset(tail) == multiset(s[1..]) + multiset{x}
    ensures forall y :: y in tail ==> y.end <= s[0].start
  {
    ChainedFits(s[0].start, s[1..]);
    forall y | y in tail ensures y.end <= s[0].start {
      assert y in multiset(tail);
      if y != x {
        assert y in s[1..];
      }
    }
  }

  /** Inserting a non-empty span that overlaps nothing keeps the order
      right-to-left. */
  lemma {:induction false} InsertByStartChained(len: nat, x: Redaction, s: seq<Redaction>)
    requires SortedDesc(s) && Chained(len, s)
    requires Fits(len, x) && x.start < x.end
    requires forall y :: y in s ==> Disjoint(x, y)
    ensures Chained(len, InsertByStart(x, s))
  {
    if s != [] {
      assert s[0] in s;
    }
    if s == [] || s[0].start <= x.start {
      ChainedFront(len, x, s);
    } else {
      ChainedRest(len, s);
      SortedDescTail(s);
      assert forall y :: y in s[1..] ==> y in s;
      InsertByStartChained(len, x, s[1..]);
      var tail := InsertByStart(x, s[1..]);
      BelowHead(len, s, x, tail);
      ChainedCons(len, s[0], tail);
    }
  }

  lemma WellFormedTail(len: nat, rs: seq<Redaction>)
    requires WellFormed(len, rs) && rs != []
    ensures WellFormed(len, rs[1..])
    ensures forall y :: y in rs[1..] ==> Disjoint(rs[0], y)
  {
    assert forall r :: r in rs[1..] ==> r in rs;
    forall i, j | 0 <= i < j < |rs[1..]| ensures Disjoint(rs[1..][i], rs[1..][j]) {
      assert rs[1..][i] == rs[i + 1] && rs[1..][j] == rs[j + 1];
    }
    forall y | y in rs[1..] ensures Disjoint(rs[0], y) {
      var k :| 0 <= k < |rs[1..]| && rs[1..][k] == y;
      assert rs[k + 1] == y;
    }
  }

  /** For well-formed annotations, the sorted order of line 94 is
      right-to-left. */
  lemma {:induction false} SortedIsChained(len: nat, rs: seq<Redaction>)
    requires WellFormed(len, rs)
    ensures Chained(len, SortByStartDesc(rs))
  {
    if rs != [] {
      WellFormedTail(len, rs);
      SortedIsChained(len, rs[1..]);
      var s := SortByStartDesc(rs[1..]);
      assert rs[0] in rs;
      forall y | y in s ensures Disjoint(rs[0], y) {
        assert y in multiset(s);
      }
      InsertByStartChained(len, rs[0], s);
    }
  }

  lemma SliceOfPrefix(x: string, y: string, p: nat, q: nat)
    requires p <= q <= |x|
    ensures (x + y)[p..q] == x[p..q]
  {
  }

  /** The rightmost span's placeholder follows the redacted text before it. */
  lemma MaskedTagFirst(n: string, cs: seq<Redaction>)
    requires Chained(|n|, cs) && cs != [] && cs[0].start < cs[0].end
    ensures 0 <= Pos(cs, cs[0].start)
    ensures Pos(cs, cs[0].start) + |Tag(cs[0])| <= |Masked(n, cs)|
    ensures Masked(n, cs)[Pos(cs, cs[0].start)..Pos(cs, cs[0].start) + |Tag(cs[0])|] == Tag(cs[0])
  {
    MaskedCons(n, cs);
    var c, rest := cs[0], cs[1..];
    var m' := Masked(n[..c.start], rest);
    assert Pos(cs, c.start) == |m'| by {
      MaskedLength(n[..c.start], rest);
      ChainedFits(c.start, rest);
      SumOfDeltas(rest, c.start);
      assert ShiftBefore(cs, c.start) == ShiftBefore(rest, c.start);
    }
    assert (m' + Tag(c))[|m'|..|m'| + |Tag(c)|] == Tag(c);
    SliceOfPrefix(m' + Tag(c), n[c.end..], |m'|, |m'| + |Tag(c)|);
  }

  /** A placeholder found in the text before the rightmost span stays where
      it is once that span's placeholder and the rest are appended. */
  lemma MaskedTagLift(n: string, cs: seq<Redaction>, k: nat)
    requires Chained(|n|, cs) && 0 < k < |cs| && cs[k].start < cs[k].end
    requires cs[0].start <= |n| && Chained(cs[0].start, cs[1..])
    requires 0 <= Pos(cs[1..], cs[k].start)
    requires Pos(cs[1..], cs[k].start) + |Tag(cs[k])| <= |Masked(n[..cs[0].start], cs[1..])|
    requires Masked(n[..cs[0].start], cs[1..])[Pos(cs[1..], cs[k].start)..Pos(cs[1..], cs[k].start) + |Tag(cs[k])|] == Tag(cs[k])
    ensures 0 <= Pos(cs, cs[k].start)
    ensures Pos(cs, cs[k].start) + |Tag(cs[k])| <= |Masked(n, cs)|
    ensures Masked(n, cs)[Pos(cs, cs[k].start)..Pos(cs, cs[k].start) + |Tag(cs[k])|] == Tag(cs[k])
  {
    var c, rest, x := cs[0], cs[1..], cs[k];
    var m' := Masked(n[..c.start], rest);
    assert Pos(cs, x.start) == Pos(rest, x.start) by {
      assert x.end <= c.start by {
        ChainedFits(c.start, rest);
        assert x == rest[k - 1] && x in rest;
      }
    }
    assert Masked(n, cs) == m' + Tag(c) + n[c.end..] by {
      MaskedCons(n, cs);
    }
    var p := Pos(rest, x.start);
    SliceOfPrefix(m', Tag(c), p, p + |Tag(x)|);
    SliceOfPrefix(m' + Tag(c), n[c.end..], p, p + |Tag(x)|);
  }

  /** Every span's placeholder sits at `Pos` of the span's start. */
  lemma {:induction false} MaskedTagAt(n: string, cs: seq<Redaction>, k: nat)
    requires Chained(|n|, cs) && k < |cs|
    requires forall r :: r in cs ==> r.start < r.end
    ensures 0 <= Pos(cs, cs[k].start)
    ensures Pos(cs, cs[k].start) + |Tag(cs[k])| <= |Masked(n, cs)|
    ensures Masked(n, cs)[Pos(cs, cs[k].start)..Pos(cs, cs[k].start) + |Tag(cs[k])|] == Tag(cs[k])
    decreases cs
  {
    assert cs[0] in cs;
    if k == 0 {
      MaskedTagFirst(n, cs);
    } else {
      assert forall r :: r in cs[1..] ==> r in cs;
      assert cs[1..][k - 1] == cs[k] && cs[k] in cs;
      MaskedTagAt(n[..cs[0].start], cs[1..], k - 1);
      MaskedTagLift(n, cs, k);
    }
  }

  /** In a right-to-left sequence of non-empty spans the first one has the
      greatest start, so a sort by descending start must put it first. */
  lemma SortedHead(len: nat, s: seq<Redaction>, c: seq<Redaction>)
    requires SortedDesc(s) && Chained(len, c) && c != []
    requires forall r :: r in c ==> r.start < r.end
    requires multiset(s) == multiset(c)
    ensures s != [] && s[0] == c[0]
  {
    assert c[0] in multiset(s);
    assert s[0] in multiset(c);
    var k :| 0 <= k < |c| && c[k] == s[0];
    var m :| 0 <= m < |s| && s[m] == c[0];
    ChainedOrder(len, c);
    assert k == 0;
  }

  lemma SortedRest(s: seq<Redaction>)
    requires SortedDesc(s) && s != []
    ensures SortedDesc(s[1..])
    ensures multiset(s[1..]) == multiset(s) - multiset{s[0]}
  {
    assert s == [s[0]] + s[1..];
  }

  lemma SortedUniqueStep(len: nat, s: seq<Redaction>, c: seq<Redaction>)
    requires SortedDesc(s) && Chained(len, c) && c != []
    requires forall r :: r in c ==> r.start < r.end
    requires multiset(s) == multiset(c)
    ensures s != [] && s[0] == c[0]
    ensures SortedDesc(s[1..]) && Chained(len, c[1..])
    ensures forall r :: r in c[1..] ==> r.start < r.end
    ensures multiset(s[1..]) == multiset(c[1..])
  {
    SortedHead(len, s, c);
    assert SortedDesc(s[1..]) && multiset(s[1..]) == multiset(s) - multiset{s[0]} by {
      SortedRest(s);
    }
    assert Chained(len, c[1..]) by {
      ChainedRest(len, c);
    }
    TailParts(c);
  }

  lemma TailParts(c: seq<Redaction>)
    requires c != []
    ensures multiset(c[1..]) == multiset(c) - multiset{c[0]}
    ensures forall r :: r in c[1..] ==> r in c
  {
    assert c == [c[0]] + c[1..];
  }

  /** A right-to-left sequence of non-empty spans is the only way to sort its
      elements by descending start. */
  lemma {:induction false} SortedUnique(len: nat, s: seq<Redaction>, c: seq<Redaction>)
    requires SortedDesc(s) && Chained(len, c)
    requires forall r :: r in c ==> r.start < r.end
    requires multiset(s) == multiset(c)
    ensures s == c
    decreases |c|
  {
    if c == [] {
      assert |multiset(s)| == 0;
    } else {
      SortedUniqueStep(len, s, c);
      SortedUnique(len, s[1..], c[1..]);
      calc {
        s;
        [s[0]] + s[1..];
        [c[0]] + c[1..];
        c;
      }
    }
  }

  /** For well-formed spans, what apply_annotations returns is the intended
      layout of the redacted narrative. */
  lemma RedactedLayout(narrative: string, annotations: seq<Redaction>)
    requires WellFormed(|narrative|, annotations)
    ensures Chained(|narrative|, SortByStartDesc(annotations))
    ensures Redacted(narrative, annotations) == Masked(narrative, SortByStartDesc(annotations))
  {
    SortedIsChained(|narrative|, annotations);
    SpliceAllIsMasked(narrative, SortByStartDesc(annotations));
  }

  /** A single span inside the narrative: the text before it, its
      placeholder, the text after it. */
  lemma RedactedSingle(narrative: string, r: Redaction)
    requires Fits(|narrative|, r)
    ensures Redacted(narrative, [r]) == narrative[..r.start] + "<" + r.text + ">" + narrative[r.end..]
  {
    assert SortByStartDesc([r]) == [r] by {
      assert [r][1..] == [];
    }
    assert SpliceAll(narrative, [r]) == Splice(narrative, r) by {
      assert [r][..0] == [];
    }
    SpliceFits(narrative, r);
  }

  /** The length of the result: the narrative, less the masked text, plus the
      placeholders. Empty spans included, every step stays inside the text. */
  lemma RedactedLength(narrative: string, annotations: seq<Redaction>)
    requires Admissible(|narrative|, annotations)
    ensures |Redacted(narrative, annotations)| == |narrative| - Removed(annotations) + Inserted(annotations)
  {
    SortedAdmissible(|narrative|, annotations);
    SortedSpliceLength(narrative, SortByStartDesc(annotations));
    SumsOfSortByStart(annotations, 0);
  }

  lemma CoveredSorted(rs: seq<Redaction>, i: nat)
    ensures Covered(SortByStartDesc(rs), i) <==> Covered(rs, i)
  {
    var s := SortByStartDesc(rs);
    if Covered(s, i) {
      var r :| r in s && r.start <= i < r.end;
      assert r in multiset(rs);
    }
    if Covered(rs, i) {
      var r :| r in rs && r.start <= i < r.end;
      assert r in multiset(s);
    }
  }

  /** A character outside every span appears unchanged in the result, at its
      own offset moved by the spans that end before it. */
  lemma RedactedKeepsText(narrative: string, annotations: seq<Redaction>, i: nat)
    requires Admissible(|narrative|, annotations)
    requires i < |narrative| && !Covered(annotations, i)
    ensures 0 <= Pos(annotations, i) < |Redacted(narrative, annotations)|
    ensures Redacted(narrative, annotations)[Pos(annotations, i)] == narrative[i]
  {
    var s := SortByStartDesc(annotations);
    assert Admissible(|narrative|, s) by {
      SortedAdmissible(|narrative|, annotations);
    }
    assert !Covered(s, i) by {
      CoveredSorted(annotations, i);
    }
    assert Pos(annotations, i) == Pos(s, i) by {
      SumsOfSortByStart(annotations, i);
    }
    SortedSpliceAt(narrative, s, i);
  }

  /** Text outside the spans keeps its order. */
  lemma RedactedKeepsOrder(narrative: string, annotations: seq<Redaction>, i: nat, j: nat)
    requires Admissible(|narrative|, annotations)
    requires i < j < |narrative| && !Covered(annotations, i) && !Covered(annotations, j)
    ensures Pos(annotations, i) < Pos(annotations, j)
  {
    var s := SortByStartDesc(annotations);
    assert Admissible(|narrative|, s) by {
      SortedAdmissible(|narrative|, annotations);
    }
    assert !Covered(s, i) && !Covered(s, j) by {
      CoveredSorted(annotations, i);
      CoveredSorted(annotations, j);
    }
    assert Pos(annotations, i) == Pos(s, i) && Pos(annotations, j) == Pos(s, j) by {
      SumsOfSortByStart(annotations, i);
      SumsOfSortByStart(annotations, j);
    }
    SortedSpliceInOrder(narrative, s, i, j);
  }

  lemma MaskedTagOf(n: string, cs: seq<Redaction>, r: Redaction)
    requires Chained(|n|, cs) && r in cs
    requires forall y :: y in cs ==> y.start < y.end
    ensures 0 <= Pos(cs, r.start) && Pos(cs, r.start) + |Tag(r)| <= |Masked(n, cs)|
    ensures Masked(n, cs)[Pos(cs, r.start)..Pos(cs, r.start) + |Tag(r)|] == Tag(r)
  {
    var k :| 0 <= k < |cs| && cs[k] == r;
    MaskedTagAt(n, cs, k);
  }

  lemma NonEmptySorted(rs: seq<Redaction>)
    requires forall y :: y in rs ==> y.start < y.end
    ensures forall y :: y in SortByStartDesc(rs) ==> y.start < y.end
  {
    var s := SortByStartDesc(rs);
    forall y | y in s ensures y.start < y.end { assert y in multiset(rs); }
  }

  /** Each span is replaced by exactly its placeholder `"<" + text + ">"`, at
      its start moved by the spans before it. */
  lemma RedactedPlacesTag(narrative: string, annotations: seq<Redaction>, r: Redaction)
    requires WellFormed(|narrative|, annotations) && r in annotations
    ensures 0 <= Pos(annotations, r.start)
    ensures Pos(annotations, r.start) + |Tag(r)| <= |Redacted(narrative, annotations)|
    ensures Redacted(narrative, annotations)[Pos(annotations, r.start)..Pos(annotations, r.start) + |Tag(r)|] == Tag(r)
  {
    var s := SortByStartDesc(annotations);
    assert Pos(annotations, r.start) == Pos(s, r.start) by {
      SumsOfSortByStart(annotations, r.start);
    }
    assert Chained(|narrative|, s) && Redacted(narrative, annotations) == Masked(narrative, s) by {
      RedactedLayout(narrative, annotations);
    }
    assert r in s && forall y :: y in s ==> y.start < y.end by {
      assert r in multiset(s);
      NonEmptySorted(annotations);
    }
    MaskedTagOf(narrative, s, r);
  }

  /** The order of the input collection does not matter. */
  lemma RedactedOrderIndependent(narrative: string, a: seq<Redaction>, b: seq<Redaction>)
    requires WellFormed(|narrative|, a) && multiset(a) == multiset(b)
    ensures Redacted(narrative, a) == Redacted(narrative, b)
  {
    SortedIsChained(|narrative|, a);
    var sa, sb := SortByStartDesc(a), SortByStartDesc(b);
    NonEmptySorted(a);
    SortedUnique(|narrative|, sb, sa);
  }

  /** The first `k` characters of `t` are still the narrative's own. */
  predicate Untouched(narrative: string, t: string, k: nat)
  {
    k <= |narrative| && k <= |t| && t[..k] == narrative[..k]
  }

  /** Before each step of the loop, the text up to the end of the span about to
      be applied is still the narrative's: the offsets of the spans not yet
      applied are valid. This holds for any right-to-left order, in
      particular (RedactedLayout) for the sorted well-formed annotations. */
  lemma UnappliedPrefixIntact(narrative: string, s: seq<Redaction>, i: nat)
    requires Chained(|narrative|, s) && i < |s|
    ensures Untouched(narrative, SpliceAll(narrative, s[..i]), s[i].end)
  {
    var done := s[..i];
    ChainedPrefix(|narrative|, s, i);
    ChainedFits(|narrative|, s);
    ChainedOrder(|narrative|, s);
    assert s[i] in s;
    forall r | r in done ensures s[i].end <= r.start {
      var k :| 0 <= k < i && s[k] == r;
    }
    SpliceAllIsMasked(narrative, done);
    MaskedPrefix(narrative, done, s[i].end);
  }

  /** Lines 82-97: sort by descending start, then splice each placeholder into
      the text rebuilt so far. */
  method ApplyAnnotations(narrative: string, annotations: seq<Redaction>) returns (redacted: string)
    ensures redacted == Redacted(narrative, annotations)
    ensures annotations == [] ==> redacted == narrative
    ensures Admissible(|narrative|, annotations) ==>
      |redacted| == |narrative| - Removed(annotations) + Inserted(annotations)
  {
    var sorted := SortByStartDesc(annotations);
    ghost var chained := Chained(|narrative|, sorted);
    redacted := narrative;
    if chained && 0 < |sorted| {
      UnappliedPrefixIntact(narrative, sorted, 0);
    }
    for i := 0 to |sorted|
      invariant redacted == SpliceAll(narrative, sorted[..i])
      invariant chained && i < |sorted| ==> Untouched(narrative, redacted, sorted[i].end)
    {
      var r := sorted[i];
      ghost var before := redacted;
      redacted := Take(redacted, r.start) + "<" + r.text + ">" + Drop(redacted, r.end);
      assert redacted == SpliceAll(narrative, sorted[..i + 1]) by {
        SpliceAsWritten(before, r);
        SpliceAllStep(narrative, sorted, i);
      }
      if chained && i + 1 < |sorted| {
        UnappliedPrefixIntact(narrative, sorted, i + 1);
      }
    }
    assert sorted[..|sorted|] == sorted;
    if Admissible(|narrative|, annotations) {
      RedactedLength(narrative, annotations);
    }
  }
}
