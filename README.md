# Manifest parsers of folivora, in Dafny

folivora tracks the third-party packages that registered projects depend
on. Users hand it a dependency manifest as a list of text lines. A manifest
parser turns those lines into two results:

- `packages`: a dictionary from package name to pinned version;
- `missing`: a list of entries it could not pin, which the user resolves by hand.

This project models the parser component, `folivora/utils/parsers.py`:

- the registry of parsers (`PARSERS`, `get_parser`, `get_parser_choices`);
- the pip requirements parser;
- the buildout versions parser.

Two library calls stay abstract. Each is a function-typed parameter of the
parse method that uses it:

- `pkg_resources.parse_requirements(text).next()` is a `RequirementParser`.
  It answers with a ValueError (`Invalid`), a StopIteration (`NoRequirement`),
  or the first requirement, given as its project name and its
  `(operator, version)` specifiers.
- `ConfigParser.readfp` followed by `has_section`/`items` is a `ConfigReader`.
  It answers with a ParsingError, or with the sections of the document, each
  holding the `(name, value)` pairs that `items` returns.

Modules:

- `Assoc` (assoc.dfy): the dictionary you get by assigning `d[k] = v` for
  each pair in order. Both parsers fill `packages` this way, so a later pin
  overwrites an earlier one.
- `Text` (text.dfy): Python's `strip()`, and `u'\n'.join(lines)`.
- `PipRequirements` (pip.dfy): `PipRequirementsParser.parse`. It is a method
  with a loop whose invariants tie `packages` and `missing` to the outcomes
  of the lines read so far. Each line has exactly one outcome: `Skipped`,
  `Unresolved(entry)` or `Pinned(name, version)`.
- `BuildoutVersions` (buildout.dfy): `BuildoutVersionsParser.parse`. It is a
  method with a loop over the pairs of the `versions` section.
- `Registry` (registry.dfy): the registered parser kinds with their names
  and titles, the search done by `get_parser`, and `get_parser_choices`.

An unknown parser name makes `get_parser` raise
`ValueError('Parser %s does not exist' % name)`, so the model returns
`Failure(ValueError("Parser " + name + " does not exist"))`.

## Model

| member | source | states |
|---|---|---|
| `Registry.Search` | folivora/utils/parsers.py:14-18 | The search loop: a match has the requested name and comes from the part of the registry still to scan. Otherwise the result is the ValueError for that name, and no parser in that part has the name. |
| `Registry.GetParser` | folivora/utils/parsers.py:14-18 | Succeeds exactly for `pip_requirements` and `buildout_versions`. The parser returned is registered, has the requested name, and is the only registered parser with it. Any other name gives `ValueError("Parser <name> does not exist")`. |
| `Registry.ParserNamesDistinct` | folivora/utils/parsers.py:73 | No two entries of `PARSERS` share a name (`pip_requirements`, `buildout_versions`). |
| `Registry.Parsers` | folivora/utils/parsers.py:73 | `PARSERS`: the pip requirements parser, then the buildout versions parser. Definition; no contract. |
| `Registry.Parser.Name` | folivora/utils/parsers.py:25-52 | The class attribute `name`: `pip_requirements` or `buildout_versions`. Definition; no contract. |
| `Registry.Parser.Title` | folivora/utils/parsers.py:25-52 | The class attribute `title`: `Pip Requirements` or `Buildout Versions`, before translation. Definition; no contract. |
| `Registry.GetParserChoices` | folivora/utils/parsers.py:21-22 | One `(name, title)` pair per entry of `PARSERS`, in the same order, so there are exactly `len(PARSERS)` of them. |
| `Registry.ChoicesRoundTrip` | folivora/utils/parsers.py:14-22 | Every offered choice names a parser that `get_parser` finds, and that parser has the choice's title. |
| `Text.Strip` | folivora/utils/parsers.py:34 | `line.strip()` is a contiguous slice of the line. Everything cut off before and after it is whitespace. It starts and ends with non-whitespace, unless it is empty. |
| `Text.StripIdempotent` | folivora/utils/parsers.py:34 | Stripping an already stripped line changes nothing. |
| `Text.JoinLines` | folivora/utils/parsers.py:55 | `u'\n'.join(lines)`. Definition; no contract. Its partner is `Text.JoinSplitRoundTrip`. |
| `Text.JoinSplitRoundTrip` | folivora/utils/parsers.py:55 | Joining a non-empty list of newline-free lines with `'\n'` loses nothing: splitting the document at its newlines gives back the same lines. |
| `PipRequirements.ExactPins` | folivora/utils/parsers.py:41 | The `==` specifiers of a requirement: exactly those, and no more of them than there are specifiers. The first one returned is the first `==` specifier in the order `req.specs` lists them (decided by the library). |
| `PipRequirements.ParseLine` | folivora/utils/parsers.py:33-45 | The outcome of one line: the body of the loop. Definition; no contract. Its effect is stated by `PipRequirements.LineEffect`. |
| `PipRequirements.Parse` | folivora/utils/parsers.py:29-47 | `packages` is the dictionary the pinned lines give, assigned in line order. `missing` lists the unresolved entries in line order. Each has at most as many entries as there are lines. |
| `PipRequirements.LineEffect` | folivora/utils/parsers.py:33-45 | The effect of line `i` depends on what the requirement parser answers for that line stripped. ValueError: the unstripped line is appended to `missing`, and `packages` does not change. StopIteration: nothing changes. A requirement whose first `==` specifier is `specs[k]`: `packages[project_name]` is set to that specifier's version, and `missing` does not change. A requirement with no `==` specifier: `project_name` is appended to `missing`, and `packages` does not change. |
| `PipRequirements.OutcomeCount` | folivora/utils/parsers.py:32-45 | Each line causes at most one pin or one missing entry. So the number of pins plus the number of missing entries is at most the number of lines, and equal to it when no line is skipped. |
| `PipRequirements.PackagesKeys` | folivora/utils/parsers.py:42-43 | A package is in `packages` exactly when some line pins it. |
| `PipRequirements.PackagesLastWins` | folivora/utils/parsers.py:42-43 | The version recorded for a package is the one pinned by the last line that pins it. A later `==` line overwrites an earlier one. |
| `PipRequirements.MissingFromLines` | folivora/utils/parsers.py:35-45 | An entry is in `missing` exactly when some line's outcome is that entry unresolved. The entry is either the raw text of a rejected line, or the project name of a requirement with no `==` specifier. |
| `BuildoutVersions.Parse` | folivora/utils/parsers.py:54-70 | `missing` is always empty. `packages` is empty when the joined document gives a ParsingError, or has no `versions` section. Otherwise `packages` is the dictionary built by assigning the `versions` pairs in order. |
| `Assoc.ToMap` | folivora/utils/parsers.py:68-69 | The dictionary left by `packages[name] = version` for each pair in order (also line 43 for the pip parser). Definition; no contract. Its properties are `Assoc.ToMapKeys`, `Assoc.ToMapLastWins` and `Assoc.ToMapSize`. |
| `Assoc.ToMapKeys` | folivora/utils/parsers.py:68-69 | A name is a key of the dictionary built from the pairs exactly when some pair carries it. |
| `Assoc.ToMapLastWins` | folivora/utils/parsers.py:68-69 | The value stored for a name is that of the last pair carrying the name. A later duplicate overwrites an earlier one. |
| `Assoc.ToMapSize` | folivora/utils/parsers.py:68-69 | The dictionary has no more keys than there were pairs. |

## Left out

- The requirement grammar of `pkg_resources` is not modelled. This covers specifier syntax, how `project_name` is normalised, and the order of `specs`. It is the abstract `RequirementParser`. The model assumes it answers only with a requirement, a ValueError or a StopIteration. Any other exception it could raise, which the source does not catch, is not modelled.
- The INI reading of `ConfigParser` is not modelled. This covers INI syntax, lower-casing of option names by `optionxform`, and merging `DEFAULT` values into `items`. It is the abstract `ConfigReader`. The model does not include the interpolation errors that `items('versions')` can raise, which the source does not catch.
- `Text.Strip` uses the whitespace set of Python 2.7 unicode strings. A manifest given as byte strings would be stripped of only the six ASCII whitespace characters.
- `StringIO` only wraps the joined document for `readfp`, so it is not modelled.
- Titles are plain strings. `ugettext_lazy` translation happens at display time and is not modelled.
- `get_parser` returns a new instance of the parser class. The model returns the parser kind, because parsers have no state. Calling `parse` on the result dispatches to `PipRequirements.Parse` or `BuildoutVersions.Parse`. Those take different abstract library functions, so no single dispatch method is modelled.
- Registry.Search: does not state that the match is the first in registry order. For the registered list, `GetParser` states that the match is the only parser with that name, which implies it is the first.
- Synchronisation with the package registry is not part of this model. This covers recording versions, reconciling project dependencies, and writing audit logs. `folivora/models.py` and `folivora/tasks.py` hold that code and are not part of this model. The Django tests in `folivora/tests.py` exercise it, along with a stub of the registry client.
