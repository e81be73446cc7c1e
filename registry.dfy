/**
 The registry of manifest parsers: a fixed list of parser kinds, looked up
 by name, and the `(name, title)` pairs offered to users as choices.
 */
module Registry {

  /** A registered manifest parser, by its kind. */
  datatype Parser = PipRequirementsParser | BuildoutVersionsParser
  {
    /** The identifier a caller asks for. */
    function Name(): string
    {
      match this
      case PipRequirementsParser => "pip_requirements"
      case BuildoutVersionsParser => "buildout_versions"
    }

    /** The label shown to users (translated at display time). */
    function Title(): string
    {
      match this
      case PipRequirementsParser => "Pip Requirements"
      case BuildoutVersionsParser => "Buildout Versions"
    }
  }

  /** The registered parsers, in registration order. */
  const Parsers: seq<Parser> := [PipRequirementsParser, BuildoutVersionsParser]

  /** The error raised for an unknown parser name. */
  datatype LookupError = ValueError(message: string)

  datatype Result<T> = Success(value: T) | Failure(error: LookupError)

  /** The ValueError of `get_parser` for an unknown name. */
  function NotFound(name: string): LookupError
  {
    ValueError("Parser " + name + " does not exist")
  }

  /**
   The search loop of `get_parser`, from position `from` of `registry` on:
   the first parser with the given name, or the ValueError when none of
   them has it.
   */
  function Search(registry: seq<Parser>, name: string, from: nat): (r: Result<Parser>)
    requires from <= |registry|
    ensures r.Success? ==> r.value in registry[from..] && r.value.Name() == name
    ensures r.Failure? ==> r.error == NotFound(name)
                           && forall i :: from <= i < |registry| ==> registry[i].Name() != name
    decreases |registry| - from
  {
    if from == |registry| then Failure(NotFound(name))
    else if registry[from].Name() == name then Success(registry[from])
    else Search(registry, name, from + 1)
  }

  /**
   `get_parser`: the registered parser with the given name, which is then
   the only registered parser with that name; a ValueError exactly when no
   registered parser has it.
   */
  function GetParser(name: string): (r: Result<Parser>)
    ensures r.Success? <==> name == "pip_requirements" || name == "buildout_versions"
    ensures r.Success? ==> r.value in Parsers && r.value.Name() == name
                           && forall p :: p in Parsers && p.Name() == name ==> p == r.value
    ensures r.Failure? ==> r.error == NotFound(name)
  {
    assert Parsers[0].Name() == "pip_requirements" && Parsers[1].Name() == "buildout_versions";
    ParserNamesDistinct();
    Search(Parsers, name, 0)
  }

  /** No two registered parsers share a name. */
  lemma ParserNamesDistinct()
    ensures forall i, j :: 0 <= i < j < |Parsers| ==> Parsers[i].Name() != Parsers[j].Name()
  {
  }

  /** `get_parser_choices`: one `(name, title)` pair per registered parser, in order. */
  function GetParserChoices(): (r: seq<(string, string)>)
    ensures |r| == |Parsers|
    ensures forall i :: 0 <= i < |r| ==> r[i] == (Parsers[i].Name(), Parsers[i].Title())
  {
    seq(|Parsers|, i requires 0 <= i < |Parsers| => (Parsers[i].Name(), Parsers[i].Title()))
  }

  /** Every offered choice names a parser that `get_parser` finds, with that title. */
  lemma ChoicesRoundTrip()
    ensures forall c :: c in GetParserChoices() ==>
      GetParser(c.0).Success? && GetParser(c.0).value.Name() == c.0 && GetParser(c.0).value.Title() == c.1
  {
    var choices := GetParserChoices();
    forall c | c in choices
      ensures GetParser(c.0).Success? && GetParser(c.0).value.Title() == c.1
    {
      var i :| 0 <= i < |choices| && choices[i] == c;
      assert Parsers[i] in Parsers;
    }
  }
}
