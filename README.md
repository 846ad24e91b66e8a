# blind_charging: redaction engine, modelled in Dafny

`blind_charging` masks the people named in a police incident narrative.
`annotate` turns the persons and officers given by the caller into
dictionaries and hands them to the annotator, which returns the spans to
mask (`Redaction(start, end, text)`). `apply_annotations` rewrites the
narrative by replacing each span with `<text>`, working from the rightmost
span to the leftmost. `redact` is `apply_annotations(narrative,
annotate(...))`.

The model has six modules:

- `Redactions` (`redaction.dfy`): the span, its placeholder, and the
  one-step edit `s[:start] + "<" + text + ">" + s[end:]`, with Python's
  clamping slices. It also holds the conditions on a collection of spans:
  - `Admissible`: in bounds, not reversed, pairwise non-overlapping.
  - `WellFormed`: admissible and non-empty. This is the shape the
    annotator is meant to give its spans; nothing in this model checks it.
- `Sorting` (`sorting.dfy`): `sorted(annotations, key=start, reverse=True)`
  as a stable insertion sort, proved ordered, a permutation and stable.
  It also holds the (start, end) ordering used in the finding below.
- `Splicing` (`splicing.dfy`): the loop body folded over the sorted spans
  (`SpliceAll`), with the invariant it keeps for every admissible
  collection, empty spans included:
  - the narrative is untouched in front of the last span applied;
  - the length has changed by exactly the spans applied;
  - every character outside the spans sits, unchanged and in order, at
    its shifted offset.
- `Applier` (`apply_annotations.dfy`): the loop of `apply_annotations` as
  a method, proved equal to the fold over the sorted spans (`Redacted`).
  For non-empty spans, `Redacted` is also proved equal to an independent
  description of the output (`Masked`): the text before the rightmost
  span, its placeholder, then the untouched rest. The properties that
  `apply_annotations` promises are proved about `Redacted`.
- `Individuals` (`individuals.dfy`): `_norm_individual`, and the list
  comprehensions that apply it to every person and officer.
- `BlindCharging` (`blind_charging.dfy`): `annotate` and `redact`, with the
  source's defaults. The annotator and the process-wide locale are
  parameters.

Offsets are natural numbers. An offset past the end of the text is clamped
as Python's slicing clamps it, so `ApplyAnnotations` accepts every input,
as the source does. `apply_annotations` checks nothing about the spans it
is given and raises no error for overlapping or out-of-range spans; neither
does the model. Each property that needs sane spans states the condition it
needs, `Admissible` or `WellFormed`.

## Model

| member | source | states |
|---|---|---|
| Redactions.Tag | blind_charging/__init__.py:95 | the placeholder is the label plus the two angle brackets |
| Redactions.Take | blind_charging/__init__.py:95 | `s[:k]` keeps `min(k, len(s))` characters: an offset past the end is clamped |
| Redactions.Drop | blind_charging/__init__.py:95 | `s[k:]` keeps the last `len(s) - min(k, len(s))` characters |
| Redactions.Splice | blind_charging/__init__.py:95 | one step of the loop: the clamped text before the span, the placeholder, then the clamped text after it, and no more |
| Redactions.SpliceFits | blind_charging/__init__.py:95 | for a span inside the text, one step replaces exactly `s[start:end]` by `<text>` and changes the length by `len(text) + 2 - (end - start)` |
| Redactions.SpliceAsWritten | blind_charging/__init__.py:95 | the loop body as written (clamped slices and four concatenations) is the one-step edit `Splice` |
| Redactions.SpliceAppend | blind_charging/__init__.py:95 | an edit inside a prefix leaves everything after the prefix unchanged |
| Redactions.SumOfDeltas | blind_charging/__init__.py:93-97 | the shifts of all spans add up to the inserted placeholder length minus the removed text |
| Sorting.InsertByStart | blind_charging/__init__.py:94 | inserting into a descending-by-start sequence keeps it descending and adds exactly the one element |
| Sorting.InsertByStartStable | blind_charging/__init__.py:94 | the inserted span goes in front of every span that shares its start |
| Sorting.SortByStartDesc | blind_charging/__init__.py:94 | the order the loop visits is non-increasing in `start` and is a permutation of the annotations |
| Sorting.SortByStartStable | blind_charging/__init__.py:94 | the sort is stable: for every start, the spans with that start keep their input order |
| Sorting.SortedAdmissible | blind_charging/__init__.py:94 | sorting keeps an admissible collection admissible: in bounds and non-overlapping |
| Sorting.SumsOfSortByStart | blind_charging/__init__.py:94 | sorting changes neither the removed length, the inserted length nor the shift before any offset |
| Sorting.InsertByKey | blind_charging/__init__.py:94 | inserting by the (start, end) key keeps the sequence descending by that key and adds exactly the one element |
| Sorting.SortByKeyDesc | blind_charging/__init__.py:94 | the corrected order is descending by (start, end) and is a permutation of the annotations |
| Sorting.SumsOfSortByKey | blind_charging/__init__.py:94 | the corrected order also keeps the removed and inserted lengths |
| Splicing.SpliceAll | blind_charging/__init__.py:93-96 | no spans leave the text as it is; otherwise the result is at least as long as the last placeholder written |
| Splicing.StepFits | blind_charging/__init__.py:94-95 | in the descending-start order of an admissible collection, the next span always lies inside the text built so far, so the slices never clamp |
| Splicing.StepKeeps | blind_charging/__init__.py:94-95 | one step keeps the loop invariant: the narrative is intact in front of the new span, the length has changed by that span's own change, and uncovered characters stay unchanged and in order at their shifted offsets |
| Splicing.KeepsOfSorted | blind_charging/__init__.py:93-96 | the invariant holds after every number of steps over an admissible collection in descending-start order |
| Splicing.SortedSpliceLength | blind_charging/__init__.py:93-97 | over an admissible descending-start sequence, the result is as long as the narrative, less the removed text, plus the placeholders |
| Splicing.SortedSpliceAt | blind_charging/__init__.py:93-97 | over an admissible descending-start sequence, every uncovered character appears unchanged at its shifted offset |
| Splicing.SortedSpliceInOrder | blind_charging/__init__.py:93-97 | over an admissible descending-start sequence, uncovered characters keep their relative order |
| Applier.Redacted | blind_charging/__init__.py:82-97 | what `apply_annotations` returns; no annotations give the narrative unchanged |
| Applier.ChainedFits | blind_charging/__init__.py:93-97 | every span of a right-to-left sequence lies inside the text |
| Applier.ChainedOrder | blind_charging/__init__.py:93-97 | in a right-to-left sequence each span ends at or before the start of every span visited before it |
| Applier.MaskedLength | blind_charging/__init__.py:93-97 | the intended layout is as long as the narrative, less the masked text, plus the placeholders |
| Applier.MaskedPrefix | blind_charging/__init__.py:93-97 | the layout leaves the narrative untouched in front of every span |
| Applier.MaskedSnoc | blind_charging/__init__.py:95 | laying out the leftmost span last is one more loop step on the layout of the others |
| Applier.SpliceAllIsMasked | blind_charging/__init__.py:93-96 | running the loop over a right-to-left sequence yields exactly the intended layout |
| Applier.InsertByStartChained | blind_charging/__init__.py:94 | inserting a non-empty, non-overlapping span by start keeps a sequence right-to-left |
| Applier.SortedIsChained | blind_charging/__init__.py:94 | for well-formed annotations the sorted order is right-to-left: each span ends before the previous one starts |
| Applier.MaskedTagAt | blind_charging/__init__.py:95 | in the layout, each span's placeholder sits at its start plus the shifts of the spans ending before it |
| Applier.SortedUnique | blind_charging/__init__.py:94 | a right-to-left sequence of non-empty spans is the only descending-by-start arrangement of its elements |
| Applier.RedactedLayout | blind_charging/__init__.py:93-97 | for well-formed annotations, the result of `apply_annotations` is the intended layout of the sorted spans |
| Applier.RedactedSingle | blind_charging/__init__.py:93-97 | one span inside the narrative gives `narrative[:start] + "<" + text + ">" + narrative[end:]` |
| Applier.RedactedLength | blind_charging/__init__.py:93-97 | for every admissible collection, empty spans included: result length = narrative length − Σ(end − start) + Σ(len(text) + 2) |
| Applier.CoveredSorted | blind_charging/__init__.py:94 | an offset is inside some span of the sorted order iff it is inside some annotation |
| Applier.RedactedKeepsText | blind_charging/__init__.py:93-97 | for every admissible collection, each character outside every span appears unchanged in the result, at its offset moved by the spans that end before it |
| Applier.RedactedKeepsOrder | blind_charging/__init__.py:93-97 | for every admissible collection, text outside the spans keeps its order in the result |
| Applier.RedactedPlacesTag | blind_charging/__init__.py:95 | for well-formed annotations, each annotation's `<text>` appears in the result at its start moved by the spans that end before it |
| Applier.RedactedOrderIndependent | blind_charging/__init__.py:84-94 | for well-formed annotations, the result does not depend on the order in which they are listed |
| Applier.UnappliedPrefixIntact | blind_charging/__init__.py:94-95 | before each step over a right-to-left order, the text up to the end of the span about to be applied is still the narrative's own text |
| Applier.ApplyAnnotations | blind_charging/__init__.py:82-97 | the loop returns `Redacted(narrative, annotations)`; no annotations return the narrative unchanged; for admissible annotations the length formula holds; its invariant keeps the prefix in front of the next span intact |
| EmptySpans.RedactedByKey | blind_charging/__init__.py:93-97 | the loop run in the corrected (start, end) order; no annotations give the narrative unchanged |
| EmptySpans.EmptySpanAheadCorrupts | blind_charging/__init__.py:94-95 | an admissible pair with an empty span listed first at the same start corrupts the result (see Findings) |
| EmptySpans.EmptySpanBehind | blind_charging/__init__.py:94-95 | the same pair listed the other way round gives the intended text, so the as-written result depends on input order |
| EmptySpans.InsertByKeyChained | blind_charging/__init__.py:94 | inserting any non-overlapping span, empty or not, by the (start, end) key keeps a sequence right-to-left |
| EmptySpans.SortedByKeyIsChained | blind_charging/__init__.py:94 | for every admissible collection the (start, end) order is right-to-left |
| EmptySpans.RedactedByKeyLayout | blind_charging/__init__.py:93-97 | with the corrected order, every admissible collection, empty spans included, yields the intended layout and length |
| EmptySpans.RedactedByKeyAgrees | blind_charging/__init__.py:94 | for well-formed annotations the corrected order gives the same text as the source's |
| EmptySpans.EmptySpanFixed | blind_charging/__init__.py:94-95 | the corrected order on the pair that defeats the original gives "a<x><y>d" |
| Individuals.NormIndividual | blind_charging/__init__.py:35-44 | fails iff the value is neither a string, an `Individual` nor a dict; a string `s` becomes `{"name": s}`; an `Individual` becomes its `to_dict()`; a dict is returned as it is |
| Individuals.NormIndividualIdempotent | blind_charging/__init__.py:35-44 | normalising an already-normalised descriptor changes nothing |
| Individuals.NameIsShorthand | blind_charging/__init__.py:37-38 | a bare name means the same as the dictionary holding only that name |
| Individuals.FirstUnsupported | blind_charging/__init__.py:69-70 | the first position holding an unsupported value, or the length if there is none |
| Individuals.NormalizeAll | blind_charging/__init__.py:69-70 | the comprehension succeeds iff no element is unsupported; on success it keeps length and order and normalises element by element; otherwise it raises the first unsupported element's `TypeError` |
| BlindCharging.Annotate | blind_charging/__init__.py:47-79 | succeeds iff both lists normalise; a bad person is reported before any officer; with all persons good, a bad officer's `TypeError` is the result; officers are redacted and no literals are given by default |
| BlindCharging.AnnotatePassesNormalized | blind_charging/__init__.py:69-79 | on success the annotator receives the normalised persons and officers, element by element and in order, and its answer is returned |
| BlindCharging.AnnotateFailsBeforeMasker | blind_charging/__init__.py:69-72 | an unsupported descriptor fails the call whatever the annotator would have done: it is never consulted |
| BlindCharging.Redact | blind_charging/__init__.py:100-124 | `redact` is `apply_annotations` on what `annotate` returns, with the same defaults; errors from `annotate` propagate; for admissible annotations the length formula holds |

## Left out

- `preload` (lines 20-28) loads the language model into memory. That is I/O with no effect on results.
- `get_locale`/`set_locale` come from `config.py`, which is not part of this model. The locale `annotate` reads at line 73 is a parameter.
- The annotator `masker.annotate` (entity recognition, alias matching, literals, overlap resolution) is not part of this model. It is a function parameter, and nothing is assumed about its output.
- Exceptions raised inside the annotator are not modelled: the annotator is a total function.
- `Individual.to_dict` is not part of this model. An `Individual` is represented by the dictionary its `to_dict()` returns.
- Descriptor dictionaries hold arbitrary Python values. The model keeps strings, lists of strings, and an opaque representation of anything else.
- The descriptor kinds are disjoint in the model. The order of the `isinstance` tests at lines 37-43 therefore only matters for values that belong to several of those types at once (such as a `str` subclass that is also an `Individual`), and those are not modelled.
- The `Redaction` class (`annotation.py`) is not part of this model. Only its `start`, `end` and `text`, the fields `apply_annotations` reads, are modelled.
- Negative offsets, which Python slicing counts from the end of the string, are not modelled: offsets are `nat`.
- `persons` and `officers` may be any iterable in the source. The model takes sequences.
- Applier.ApplyAnnotations: states the length formula only for admissible annotations. Spans past the end of the text or overlapping one another make the clamped slices remove less than `end - start`, and the model claims nothing about the length then.
- Applier.RedactedPlacesTag: requires non-empty spans. An empty span applied before a non-empty span with the same start has its placeholder cut open (see Findings), so the claim fails for such collections.
- Applier.RedactedLayout: requires non-empty spans, for the same reason: with such a pair the result is not the intended layout.
- Applier.RedactedOrderIndependent: requires non-empty spans. With such a pair the result depends on the input order (`EmptySpanAheadCorrupts`, `EmptySpanBehind`).

## Findings

| source | as written | input that shows it | evidently intended | confidence | as-written member | corrected member |
|---|---|---|---|---|---|---|
| blind_charging/__init__.py:94-95 | spans are ordered by `start` alone, and spans with equal starts keep their input order, so an empty span (`start == end`) listed before a non-empty span with the same start is applied first; its placeholder then lies inside the text the later span removes | narrative `"abcd"`, annotations `[Redaction(1, 1, "x"), Redaction(1, 3, "y")]` (admissible: in bounds and non-overlapping) gives `"a<y>>bcd"`: the first placeholder is cut open and `"bc"` survives; listed the other way round they give `"a<x><y>d"` | sort by `(start, end)`, both descending, so the empty span goes last; then every admissible collection yields the intended layout | low: the annotator is meant to return non-empty spans only; not executed | EmptySpans.EmptySpanAheadCorrupts | EmptySpans.RedactedByKeyLayout |

`EmptySpans.RedactedByKeyAgrees` shows that the corrected order gives the
same text as the source's for every well-formed collection. So
`ApplyAnnotations` keeps the source's order, and every property proved
about it holds unchanged under the correction. The defect is confined to
where the placeholders go. Even with empty spans, the length, the
surviving text and its order come out as intended (`RedactedLength`,
`RedactedKeepsText`, `RedactedKeepsOrder`).
