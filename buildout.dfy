/**
 The buildout versions parser: the lines are joined into one INI document,
 read by Python's `ConfigParser`, and the pairs of its `[versions]` section
 become the pinned packages. Nothing is ever reported missing.
 */
module BuildoutVersions {
  import Text
  import Assoc

  /**
   What `ConfigParser.readfp` leaves: a ParsingError, or the document's
   sections, each with the `(name, value)` pairs that `items(section)`
   returns for it, in order.
   */
  datatype ConfigOutcome =
    | ParsingError
    | Parsed(sections: map<string, seq<(string, string)>>)

  /** The INI reader of `ConfigParser`, which this model leaves abstract. */
  type ConfigReader = string -> ConfigOutcome

  /** The only section whose entries are read. */
  const VersionsSection: string := "versions"

  /**
   `BuildoutVersionsParser.parse`: an unreadable document, or one without a
   `versions` section, yields no packages; otherwise every pair of that
   section is a package pin, a later pair for a name overwriting an earlier
   one. The missing list is always empty.
   */
  method Parse(lines: seq<string>, read: ConfigReader)
    returns (packages: map<string, string>, missing: seq<string>)
    ensures missing == []
    ensures read(Text.JoinLines(lines)).ParsingError? ==> packages == map[]
    ensures read(Text.JoinLines(lines)).Parsed? && VersionsSection !in read(Text.JoinLines(lines)).sections
            ==> packages == map[]
    ensures read(Text.JoinLines(lines)).Parsed? && VersionsSection in read(Text.JoinLines(lines)).sections
            ==> packages == Assoc.ToMap(read(Text.JoinLines(lines)).sections[VersionsSection])
  {
    var data := Text.JoinLines(lines);
    var config := read(data);
    if config.ParsingError? {
      return map[], [];
    }
    if VersionsSection !in config.sections {
      return map[], [];
    }
    missing := [];
    packages := map[];
    var items := config.sections[VersionsSection];
    for i := 0 to |items|
      invariant packages == Assoc.ToMap(items[..i])
    {
      var (name, version) := items[i];
      assert items[..i + 1] == items[..i] + [(name, version)];
      Assoc.ToMapSnoc(items[..i], name, version);
      packages := packages[name := version];
    }
    assert items[..|items|] == items;
  }
}
