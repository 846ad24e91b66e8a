/** Redaction spans and the one-step edit that apply_annotations performs
    on the narrative for each of them. */
module Redactions {

  /** A span of the narrative to mask: offsets are half-open, `text` is the
      label written into the placeholder. */
  datatype Redaction = Redaction(start: nat, end: nat, text: string)

  /** The placeholder that replaces a span: the label between angle brackets. */
  function Tag(r: Redaction): (t: string)
    ensures |t| == |r.text| + 2
  {
    "<" + r.text + ">"
  }

  function Min(a: nat, b: nat): nat { if a <= b then a else b }

  /** Python's `s[:k]` and `s[k:]` for a non-negative `k`: an offset past the
      end is clamped to the length. */
  function Take(s: string, k: nat): (t: string)
    ensures |t| == Min(k, |s|)
  {
    s[..Min(k, |s|)]
  }

  function Drop(s: string, k: nat): (d: string)
    ensures |d| == |s| - Min(k, |s|)
  {
    s[Min(k, |s|)..]
  }

  /** One step of the loop: `s[:r.start] + "<" + r.text + ">" + s[r.end:]`. */
  function Splice(s: string, r: Redaction): (t: string)
    ensures |t| == Min(r.start, |s|) + |Tag(r)| + (|s| - Min(r.end, |s|))
  {
    Take(s, r.start) + Tag(r) + Drop(s, r.end)
  }

  /** The span lies inside a string of length `len` and is not reversed. */
  predicate Fits(len: nat, r: Redaction)
  {
    r.start <= r.end <= len
  }

  predicate Disjoint(a: Redaction, b: Redaction)
  {
    a.end <= b.start || b.end <= a.start
  }

  predicate NonOverlapping(rs: seq<Redaction>)
  {
    forall i, j :: 0 <= i < j < |rs| ==> Disjoint(rs[i], rs[j])
  }

  /** In bounds, not reversed, pairwise non-overlapping: what apply_annotations
      silently relies on and never checks. */
  predicate Admissible(len: nat, rs: seq<Redaction>)
  {
    (forall r :: r in rs ==> Fits(len, r)) && NonOverlapping(rs)
  }

  /** Admissible and non-empty: the shape the annotator is meant to give the
      spans it returns. */
  predicate WellFormed(len: nat, rs: seq<Redaction>)
  {
    Admissible(len, rs) && forall r :: r in rs ==> r.start < r.end
  }

  /** Text removed and text inserted by a collection of spans. */
  function Removed(rs: seq<Redaction>): int
  {
    if rs == [] then 0 else (rs[0].end - rs[0].start) + Removed(rs[1..])
  }

  function Inserted(rs: seq<Redaction>): nat
  {
    if rs == [] then 0 else (|rs[0].text| + 2) + Inserted(rs[1..])
  }

  /** How much a span changes the length of the text. */
  function Delta(r: Redaction): int { |Tag(r)| - (r.end - r.start) }

  /** Total change in length caused by the spans that end at or before
      offset `i` of the narrative. */
  function ShiftBefore(rs: seq<Redaction>, i: nat): int
  {
    if rs == [] then 0
    else (if rs[0].end <= i then Delta(rs[0]) else 0) + ShiftBefore(rs[1..], i)
  }

  /** Where the narrative's character `i` lands in the redacted text. */
  function Pos(rs: seq<Redaction>, i: nat): int { i + ShiftBefore(rs, i) }

  predicate Covered(rs: seq<Redaction>, i: nat)
  {
    exists r :: r in rs && r.start <= i < r.end
  }

  /** A single span inside the string is replaced by its placeholder, and
      the clamping of Python's slices plays no part. */
  lemma SpliceFits(s: string, r: Redaction)
    requires Fits(|s|, r)
    ensures Splice(s, r) == s[..r.start] + "<" + r.text + ">" + s[r.end..]
    ensures |Splice(s, r)| == |s| + Delta(r)
  {
  }

  /** The loop body of apply_annotations, written as the source writes it. */
  lemma SpliceAsWritten(s: string, r: Redaction)
    ensures Take(s, r.start) + "<" + r.text + ">" + Drop(s, r.end) == Splice(s, r)
  {
    assert Tag(r) == "<" + r.text + ">";
  }

  /** Editing inside a prefix leaves the rest of the string alone. */
  lemma SpliceAppend(x: string, a: string, b: string, r: Redaction)
    requires Fits(|x|, r)
    ensures Splice(x + a + b, r) == Splice(x, r) + a + b
  {
    assert (x + a + b)[..r.start] == x[..r.start];
    assert (x + a + b)[r.end..] == x[r.end..] + a + b;
  }

  lemma {:induction false} SumOfDeltas(rs: seq<Redaction>, len: nat)
    requires forall r :: r in rs ==> r.end <= len
    ensures ShiftBefore(rs, len) == Inserted(rs) - Removed(rs)
  {
    if rs != [] {
      assert forall r :: r in rs[1..] ==> r in rs;
      SumOfDeltas(rs[1..], len);
    }
  }
}
