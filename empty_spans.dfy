/** Empty spans (start == end). They do not overlap anything, yet sorting by
    start alone can apply one of them before a non-empty span that begins at
    the same offset, and the placeholder it inserts then sits inside the
    text the later span removes. Ordering by (start, end) instead, both
    descending, is right for every admissible collection. */
module EmptySpans {
  import opened Redactions
  import opened Sorting
  import opened Splicing
  import opened Applier

  /** The source as written: an empty span listed before a non-empty span
      with the same start. The collection is admissible, yet the first
      placeholder is cut open and part of the masked text ("bc") survives. */
  lemma EmptySpanAheadCorrupts()
    ensures Admissible(4, [Redaction(1, 1, "x"), Redaction(1, 3, "y")])
    ensures Redacted("abcd", [Redaction(1, 1, "x"), Redaction(1, 3, "y")]) == "a<y>>bcd"
  {
    StableOrderOfExample(Redaction(1, 1, "x"), Redaction(1, 3, "y"));
    SplicesAhead();
  }

  /** The same two spans listed the other way round give the intended text,
      so with empty spans the result depends on the order of the input. */
  lemma EmptySpanBehind()
    ensures Redacted("abcd", [Redaction(1, 3, "y"), Redaction(1, 1, "x")]) == "a<x><y>d"
  {
    StableOrderOfExample(Redaction(1, 3, "y"), Redaction(1, 1, "x"));
    SplicesOfExample();
  }

  /** Two spans with the same start keep their input order. */
  lemma StableOrderOfExample(a: Redaction, b: Redaction)
    requires a.start == b.start
    ensures SortByStartDesc([a, b]) == [a, b]
  {
    assert [a, b][1..] == [b];
    assert SortByStartDesc([b]) == [b];
  }

  lemma SplicesAhead()
    ensures SpliceAll("abcd", [Redaction(1, 1, "x"), Redaction(1, 3, "y")]) == "a<y>>bcd"
  {
    var x, y := Redaction(1, 1, "x"), Redaction(1, 3, "y");
    assert SpliceAll("abcd", [x]) == "a<x>bcd" by {
      assert [x][..0] == [];
      SpliceFits("abcd", x);
    }
    assert [x, y][..1] == [x];
    SpliceFits("a<x>bcd", y);
  }

  /** apply_annotations with spans ordered by (start, end), descending. */
  function RedactedByKey(narrative: string, annotations: seq<Redaction>): (r: string)
    ensures annotations == [] ==> r == narrative
  {
    SpliceAll(narrative, SortByKeyDesc(annotations))
  }

  lemma AdmissibleTail(len: nat, rs: seq<Redaction>)
    requires Admissible(len, rs) && rs != []
    ensures Admissible(len, rs[1..]) && Fits(len, rs[0])
    ensures forall y :: y in rs[1..] ==> Disjoint(rs[0], y)
  {
    assert rs[0] in rs;
    assert forall r :: r in rs[1..] ==> r in rs;
    forall i, j | 0 <= i < j < |rs[1..]| ensures Disjoint(rs[1..][i], rs[1..][j]) {
      assert rs[1..][i] == rs[i + 1] && rs[1..][j] == rs[j + 1];
    }
    forall y | y in rs[1..] ensures Disjoint(rs[0], y) {
      var k :| 0 <= k < |rs[1..]| && rs[1..][k] == y;
      assert rs[k + 1] == y;
    }
  }

  /** Inserting any span that overlaps nothing, empty or not, keeps the order
      right-to-left when the key is (start, end). */
  lemma {:induction false} InsertByKeyChained(len: nat, x: Redaction, s: seq<Redaction>)
    requires SortedDescByKey(s) && Chained(len, s)
    requires Fits(len, x)
    requires forall y :: y in s ==> Disjoint(x, y)
    ensures Chained(len, InsertByKey(x, s))
  {
    if s != [] {
      assert s[0] in s;
    }
    if s == [] || KeyLeq(s[0], x) {
      ChainedFront(len, x, s);
    } else {
      ChainedRest(len, s);
      SortedByKeyTail(s);
      assert forall y :: y in s[1..] ==> y in s;
      InsertByKeyChained(len, x, s[1..]);
      var tail := InsertByKey(x, s[1..]);
      BelowHead(len, s, x, tail);
      ChainedCons(len, s[0], tail);
    }
  }

  lemma {:induction false} SortedByKeyIsChained(len: nat, rs: seq<Redaction>)
    requires Admissible(len, rs)
    ensures Chained(len, SortByKeyDesc(rs))
  {
    if rs != [] {
      AdmissibleTail(len, rs);
      SortedByKeyIsChained(len, rs[1..]);
      var s := SortByKeyDesc(rs[1..]);
      forall y | y in s ensures Disjoint(rs[0], y) {
        assert y in multiset(s);
      }
      InsertByKeyChained(len, rs[0], s);
    }
  }

  /** The corrected ordering: for every admissible collection, empty spans
      included, the result is the intended layout and has the intended
      length. */
  lemma RedactedByKeyLayout(narrative: string, annotations: seq<Redaction>)
    requires Admissible(|narrative|, annotations)
    ensures Chained(|narrative|, SortByKeyDesc(annotations))
    ensures RedactedByKey(narrative, annotations) == Masked(narrative, SortByKeyDesc(annotations))
    ensures |RedactedByKey(narrative, annotations)|
            == |narrative| - Removed(annotations) + Inserted(annotations)
  {
    SortedByKeyIsChained(|narrative|, annotations);
    SpliceAllIsMasked(narrative, SortByKeyDesc(annotations));
    MaskedLength(narrative, SortByKeyDesc(annotations));
    SumsOfSortByKey(annotations);
  }

  /** The corrected ordering changes nothing for non-empty spans. */
  lemma RedactedByKeyAgrees(narrative: string, annotations: seq<Redaction>)
    requires WellFormed(|narrative|, annotations)
    ensures RedactedByKey(narrative, annotations) == Redacted(narrative, annotations)
  {
    var byKey, byStart := SortByKeyDesc(annotations), SortByStartDesc(annotations);
    SortedIsChained(|narrative|, annotations);
    NonEmptySorted(annotations);
    assert SortedDesc(byKey) by {
      forall i, j | 0 <= i < j < |byKey| ensures byKey[i].start >= byKey[j].start {
        assert KeyLeq(byKey[j], byKey[i]);
      }
    }
    SortedUnique(|narrative|, byKey, byStart);
  }

  /** The corrected ordering on the collection that defeats the original. */
  lemma EmptySpanFixed()
    ensures RedactedByKey("abcd", [Redaction(1, 1, "x"), Redaction(1, 3, "y")]) == "a<x><y>d"
  {
    KeyOrderOfExample();
    SplicesOfExample();
  }

  lemma KeyOrderOfExample()
    ensures SortByKeyDesc([Redaction(1, 1, "x"), Redaction(1, 3, "y")])
            == [Redaction(1, 3, "y"), Redaction(1, 1, "x")]
  {
    var x, y := Redaction(1, 1, "x"), Redaction(1, 3, "y");
    assert SortByKeyDesc([y]) == [y];
    assert [x, y][1..] == [y];
    assert !KeyLeq(y, x);
    assert InsertByKey(x, [y]) == [y] + InsertByKey(x, []) == [y, x];
  }

  lemma SplicesOfExample()
    ensures SpliceAll("abcd", [Redaction(1, 3, "y"), Redaction(1, 1, "x")]) == "a<x><y>d"
  {
    var x, y := Redaction(1, 1, "x"), Redaction(1, 3, "y");
    assert SpliceAll("abcd", [y]) == "a<y>d" by {
      assert [y][..0] == [];
      SpliceFits("abcd", y);
    }
    assert [y, x][..1] == [y];
    SpliceFits("a<y>d", x);
  }
}
