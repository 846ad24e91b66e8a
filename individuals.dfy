/** Normalisation of the person and officer descriptors that `annotate`
    accepts: a bare name, an `Individual`, or a dictionary. */
module Individuals {

  /** A value in a descriptor dictionary. The matcher reads strings (a name,
      a role) and lists of strings (aliases); other values are carried along
      unread. */
  datatype FieldValue = Text(s: string) | TextList(items: seq<string>) | Unread(repr: string)

  type Dict = map<string, FieldValue>

  /** Any Python value passed as a person or officer. `Record` is an
      `Individual` instance, carried by what its `to_dict()` returns;
      `Unsupported` is a value of any other type, named by `repr(type(x))`. */
  datatype Descriptor =
    | Name(name: string)
    | Record(asDict: Dict)
    | Mapping(fields: Dict)
    | Unsupported(typeRepr: string)

  /** The `TypeError` raised for an unsupported descriptor. */
  datatype TypeError = TypeError(message: string)

  datatype Result<T> = Ok(value: T) | Err(error: TypeError)

  /** `_norm_individual`. */
  function NormIndividual(x: Descriptor): (r: Result<Dict>)
    ensures r.Err? <==> x.Unsupported?
    ensures x.Name? ==> r.Ok? && r.value.Keys == {"name"} && r.value["name"] == Text(x.name)
    ensures x.Record? ==> r == Ok(x.asDict)
    ensures x.Mapping? ==> r == Ok(x.fields)
  {
    match x
    case Name(s) => Ok(map["name" := Text(s)])
    case Record(d) => Ok(d)
    case Mapping(d) => Ok(d)
    case Unsupported(t) => Err(TypeError("unexpected type " + t))
  }

  /** Normalisation is idempotent: handing back what it produced, as a plain
      dictionary, yields the same dictionary. */
  lemma NormIndividualIdempotent(x: Descriptor)
    requires NormIndividual(x).Ok?
    ensures NormIndividual(Mapping(NormIndividual(x).value)) == NormIndividual(x)
  {
  }

  /** A bare name is shorthand for the dictionary holding only that name. */
  lemma NameIsShorthand(s: string)
    ensures NormIndividual(Name(s)) == NormIndividual(Mapping(map["name" := Text(s)]))
  {
  }

  /** Index of the first unsupported descriptor, or `|xs|` if there is none. */
  function FirstUnsupported(xs: seq<Descriptor>): (k: nat)
    ensures k <= |xs|
    ensures forall j :: 0 <= j < k ==> !xs[j].Unsupported?
    ensures k < |xs| ==> xs[k].Unsupported?
  {
    if xs == [] then 0
    else if xs[0].Unsupported? then 0
    else 1 + FirstUnsupported(xs[1..])
  }

  /** `[_norm_individual(p) for p in xs]`: element by element, in order; the
      first unsupported element raises and nothing is returned. */
  function NormalizeAll(xs: seq<Descriptor>): (r: Result<seq<Dict>>)
    ensures r.Ok? <==> forall i :: 0 <= i < |xs| ==> !xs[i].Unsupported?
    ensures r.Ok? ==> (|r.value| == |xs| &&
                       forall i :: 0 <= i < |xs| ==> Ok(r.value[i]) == NormIndividual(xs[i]))
    ensures r.Err? ==> (FirstUnsupported(xs) < |xs| &&
                        r == Err(NormIndividual(xs[FirstUnsupported(xs)]).error))
  {
    if xs == [] then Ok([])
    else
      match NormIndividual(xs[0])
      case Err(e) => Err(e)
      case Ok(d) =>
        match NormalizeAll(xs[1..])
        case Err(e) => Err(e)
        case Ok(ds) => Ok([d] + ds)
  }
}
