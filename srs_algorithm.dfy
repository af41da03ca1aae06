/** Choosing the scheduling algorithm (`src/algorithms/base/SrsAlgorithm.ts`): the name
    stored in the settings selects the algorithm type, the factory builds the matching
    implementation, and a registry holds the instance in use. The algorithms' own
    scheduling code is not part of this model; an instance is recorded by its kind and
    the settings it was built from. */
module SrsAlgorithms {
  import opened Wrappers

  datatype SrsAlgorithmType = SM2_Osr | SpecifiedIntervals

  /** The settings the factory reads; only the algorithm's name matters here. */
  datatype SrSettings = SrSettings(algorithmType: string)

  /** An algorithm implementation together with the settings it was built from. */
  datatype SrsAlgorithm = SrsAlgorithmOsr(settings: SrSettings) | SrsAlgorithmSpecifiedIntervals(settings: SrSettings)
  {
    function Kind(): SrsAlgorithmType
    {
      match this
      case SrsAlgorithmOsr(_) => SM2_Osr
      case SrsAlgorithmSpecifiedIntervals(_) => SpecifiedIntervals
    }
  }

  /** The name each algorithm type is stored under in the settings. */
  function TypeName(t: SrsAlgorithmType): string
  {
    match t
    case SM2_Osr => "SM2_Osr"
    case SpecifiedIntervals => "SpecifiedIntervals"
  }

  /** `getTypeFromName`: the type whose name is `name`; any other name is an error. */
  function GetTypeFromName(name: string): (r: Result<SrsAlgorithmType>)
    ensures r.Ok? <==> name == "SM2_Osr" || name == "SpecifiedIntervals"
    ensures forall t :: r == Ok(t) <==> TypeName(t) == name
  {
    match name
    case "SM2_Osr" => Ok(SM2_Osr)
    case "SpecifiedIntervals" => Ok(SpecifiedIntervals)
    case _ => Fail("SrsAlgorithm. invalid name " + name)
  }

  /** `SrsAlgorithmFactory.create`: the implementation of the type the settings name,
      built from those settings; an unknown name is an error. */
  function CreateAlgorithm(settings: SrSettings): (r: Result<SrsAlgorithm>)
    ensures r.Ok? <==> GetTypeFromName(settings.algorithmType).Ok?
    ensures r.Ok? ==> TypeName(r.value.Kind()) == settings.algorithmType && r.value.settings == settings
  {
    match GetTypeFromName(settings.algorithmType)
    case Ok(SM2_Osr) => Ok(SrsAlgorithmOsr(settings))
    case Ok(SpecifiedIntervals) => Ok(SrsAlgorithmSpecifiedIntervals(settings))
    case Fail(message) => Fail(message)
  }

  /** The registry behind the static `SrsAlgorithm.instance` field. */
  class SrsAlgorithmRegistry {
    var instance: Option<SrsAlgorithm>

    constructor ()
      ensures instance == None
    {
      instance := None;
    }

    /** Registers the algorithm in use. */
    method SetInstance(algorithm: SrsAlgorithm)
      modifies this
      ensures instance == Some(algorithm)
    {
      instance := Some(algorithm);
    }

    /** `getInstance`: the registered algorithm; an error when none is registered. */
    method GetInstance() returns (r: Result<SrsAlgorithm>)
      ensures r.Fail? <==> instance == None
      ensures instance.Some? ==> r == Ok(instance.value)
    {
      if instance == None {
        r := Fail("there is no SrsAlgorithm instance.");
      } else {
        r := Ok(instance.value);
      }
    }
  }
}
