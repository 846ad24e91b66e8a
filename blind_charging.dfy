/** The public entry points `annotate` and `redact`. The annotator they
    delegate to (masker.py: entity recognition, name and alias matching,
    literal matching, overlap reconciliation) is not part of this model; it
    is a function parameter whose only known property is that it returns a
    list of redactions. The process-wide locale is a parameter too. */
module BlindCharging {
  import opened Redactions
  import opened Applier
  import opened Individuals

  type Locale = string

  /** Category name to the literal strings to redact verbatim. */
  type Literals = map<string, seq<string>>

  datatype Option<T> = None | Some(value: T)

  /** masker.annotate(locale, narrative, persons, officers,
      redact_officers_from_text=..., literals=...). */
  type Masker = (Locale, string, seq<Dict>, seq<Dict>, bool, Option<Literals>) -> seq<Redaction>

  /** `annotate`: normalise the persons, then the officers, then hand both
      lists to the annotator with the current locale. Officers are redacted
      from the text and no literals are given unless the caller says
      otherwise. */
  function Annotate(masker: Masker, locale: Locale, narrative: string,
                    persons: seq<Descriptor>, officers: seq<Descriptor>,
                    redactOfficers: bool := true, literals: Option<Literals> := None): (r: Result<seq<Redaction>>)
    ensures r.Ok? <==> NormalizeAll(persons).Ok? && NormalizeAll(officers).Ok?
    ensures NormalizeAll(persons).Err? ==> r == Err(NormalizeAll(persons).error)
    ensures NormalizeAll(persons).Ok? && NormalizeAll(officers).Err? ==>
      r == Err(NormalizeAll(officers).error)
  {
    match NormalizeAll(persons)
    case Err(e) => Err(e)
    case Ok(ps) =>
      match NormalizeAll(officers)
      case Err(e) => Err(e)
      case Ok(os) => Ok(masker(locale, narrative, ps, os, redactOfficers, literals))
  }

  /** What the annotator receives: both lists normalised element by element,
      with their lengths and order kept. */
  lemma AnnotatePassesNormalized(masker: Masker, locale: Locale, narrative: string,
                                 persons: seq<Descriptor>, officers: seq<Descriptor>,
                                 redactOfficers: bool, literals: Option<Literals>)
    requires Annotate(masker, locale, narrative, persons, officers, redactOfficers, literals).Ok?
    ensures exists ps: seq<Dict>, os: seq<Dict> ::
      |ps| == |persons| && |os| == |officers| &&
      (forall i :: 0 <= i < |persons| ==> Ok(ps[i]) == NormIndividual(persons[i])) &&
      (forall i :: 0 <= i < |officers| ==> Ok(os[i]) == NormIndividual(officers[i])) &&
      Annotate(masker, locale, narrative, persons, officers, redactOfficers, literals)
        == Ok(masker(locale, narrative, ps, os, redactOfficers, literals))
  {
    var ps, os := NormalizeAll(persons).value, NormalizeAll(officers).value;
    assert |ps| == |persons| && |os| == |officers|;
  }

  /** An unsupported descriptor fails the call before the annotator runs:
      the error is the same whatever the annotator would have done. */
  lemma AnnotateFailsBeforeMasker(m1: Masker, m2: Masker, locale: Locale, narrative: string,
                                  persons: seq<Descriptor>, officers: seq<Descriptor>,
                                  redactOfficers: bool, literals: Option<Literals>)
    requires (exists i :: 0 <= i < |persons| && persons[i].Unsupported?) ||
             (exists i :: 0 <= i < |officers| && officers[i].Unsupported?)
    ensures Annotate(m1, locale, narrative, persons, officers, redactOfficers, literals).Err?
    ensures Annotate(m1, locale, narrative, persons, officers, redactOfficers, literals)
         == Annotate(m2, locale, narrative, persons, officers, redactOfficers, literals)
  {
  }

  /** `redact`: `apply_annotations(narrative, annotate(...))`. */
  method Redact(masker: Masker, locale: Locale, narrative: string,
                persons: seq<Descriptor>, officers: seq<Descriptor>,
                redactOfficers: bool := true, literals: Option<Literals> := None) returns (r: Result<string>)
    ensures var a := Annotate(masker, locale, narrative, persons, officers, redactOfficers, literals);
      r == match a
           case Err(e) => Err(e)
           case Ok(annotations) => Ok(Redacted(narrative, annotations))
    ensures var a := Annotate(masker, locale, narrative, persons, officers, redactOfficers, literals);
      r.Ok? && Admissible(|narrative|, a.value) ==>
        |r.value| == |narrative| - Removed(a.value) + Inserted(a.value)
  {
    var a := Annotate(masker, locale, narrative, persons, officers, redactOfficers, literals);
    match a
    case Err(e) =>
      r := Err(e);
    case Ok(annotations) =>
      var text := ApplyAnnotations(narrative, annotations);
      r := Ok(text);
  }
}
