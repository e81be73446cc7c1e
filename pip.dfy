/**
 The pip requirements parser: each line of a requirements file is handed,
 stripped, to the requirement parser of `pkg_resources`, and its first
 requirement either pins a version (`name==version`) or is reported as missing.
 */
module PipRequirements {
  import Text
  import Assoc

  /** One version specifier of a requirement, such as `("==", "0.14.6")`. */
  datatype Spec = Spec(op: string, version: string)

  /**
   What `pkg_resources.parse_requirements(text).next()` yields: a ValueError,
   a StopIteration (blank or comment text), or the first requirement with its
   project name and its specifiers in the order `req.specs` lists them
   (decided by the library).
   */
  datatype ReqOutcome =
    | Invalid
    | NoRequirement
    | Requirement(projectName: string, specs: seq<Spec>)

  /** The requirement grammar of `pkg_resources`, which this model leaves abstract. */
  type RequirementParser = string -> ReqOutcome

  /** The one effect a single line has on the parser's result. */
  datatype LineOutcome =
    | Skipped
    | Unresolved(entry: string)
    | Pinned(name: string, version: string)
  {
    /** True when this line sets the version of package `p`. */
    predicate PinsPackage(p: string)
    {
      Pinned? && name == p
    }
  }

  /** The specifiers whose operator is `==`, in the order `req.specs` lists them. */
  function ExactPins(specs: seq<Spec>): (r: seq<Spec>)
    ensures |r| <= |specs|
    ensures forall s :: s in r <==> s in specs && s.op == "=="
    ensures r != [] ==> exists i :: 0 <= i < |specs| && specs[i] == r[0]
                                    && forall j :: 0 <= j < i ==> specs[j].op != "=="
  {
    if specs == [] then []
    else if specs[0].op == "==" then [specs[0]] + ExactPins(specs[1..])
    else
      var r := ExactPins(specs[1..]);
      assert r != [] ==> specs[1..][0] == specs[1];
      r
  }

  /** What one line of the requirements file contributes. */
  function ParseLine(line: string, parse: RequirementParser): LineOutcome
  {
    match parse(Text.Strip(line))
    case Invalid => Unresolved(line)
    case NoRequirement => Skipped
    case Requirement(name, specs) =>
      var pins := ExactPins(specs);
      if pins != [] then Pinned(name, pins[0].version) else Unresolved(name)
  }

  /** The outcome of every line, in line order. */
  function Outcomes(lines: seq<string>, parse: RequirementParser): seq<LineOutcome>
  {
    seq(|lines|, k requires 0 <= k < |lines| => ParseLine(lines[k], parse))
  }

  /** The `name -> version` assignments made by the outcomes, in order. */
  function PinsOf(outs: seq<LineOutcome>): seq<(string, string)>
  {
    if outs == [] then []
    else
      var prior := PinsOf(outs[..|outs| - 1]);
      match outs[|outs| - 1]
      case Pinned(name, version) => prior + [(name, version)]
      case _ => prior
  }

  /** The entries reported as missing, in order. */
  function MissingOf(outs: seq<LineOutcome>): seq<string>
  {
    if outs == [] then []
    else
      var prior := MissingOf(outs[..|outs| - 1]);
      match outs[|outs| - 1]
      case Unresolved(entry) => prior + [entry]
      case _ => prior
  }

  /** The `packages` dictionary: every pin assigned in order. */
  function PackagesOf(outs: seq<LineOutcome>): map<string, string>
  {
    Assoc.ToMap(PinsOf(outs))
  }

  /** The outcomes of the first `i + 1` lines: those of the first `i`, then line `i`'s. */
  lemma OutcomesStep(lines: seq<string>, i: nat, parse: RequirementParser)
    requires i < |lines|
    ensures Outcomes(lines[..i + 1], parse)[..i] == Outcomes(lines[..i], parse)
    ensures Outcomes(lines[..i + 1], parse)[i] == ParseLine(lines[i], parse)
  {
  }

  /** The effect of the last outcome on both results. */
  lemma OutcomesLast(outs: seq<LineOutcome>)
    requires outs != []
    ensures var prior, o := PackagesOf(outs[..|outs| - 1]), outs[|outs| - 1];
      PackagesOf(outs) == if o.Pinned? then prior[o.name := o.version] else prior
    ensures var prior, o := MissingOf(outs[..|outs| - 1]), outs[|outs| - 1];
      MissingOf(outs) == if o.Unresolved? then prior + [o.entry] else prior
  {
    var o := outs[|outs| - 1];
    if o.Pinned? {
      Assoc.ToMapSnoc(PinsOf(outs[..|outs| - 1]), o.name, o.version);
    }
  }

  /**
   `PipRequirementsParser.parse`: returns the pinned packages and the missing
   entries that the lines' outcomes give, at most one of either per line.
   */
  method Parse(lines: seq<string>, parse: RequirementParser)
    returns (packages: map<string, string>, missing: seq<string>)
    ensures packages == PackagesOf(Outcomes(lines, parse))
    ensures missing == MissingOf(Outcomes(lines, parse))
    ensures |packages| <= |lines| && |missing| <= |lines|
  {
    missing := [];
    packages := map[];
    for i := 0 to |lines|
      invariant packages == PackagesOf(Outcomes(lines[..i], parse))
      invariant missing == MissingOf(Outcomes(lines[..i], parse))
    {
      var line := lines[i];
      LineEffect(lines, i, parse);
      var req := parse(Text.Strip(line));
      match req
      case Invalid =>
        missing := missing + [line];
      case NoRequirement =>
      case Requirement(name, specs) =>
        var exact := ExactPins(specs);
        if exact != [] {
          packages := packages[name := exact[0].version];
        } else {
          missing := missing + [name];
        }
    }
    assert lines[..|lines|] == lines;
    OutcomeCount(Outcomes(lines, parse));
    Assoc.ToMapSize(PinsOf(Outcomes(lines, parse)));
  }

  /** True when `specs[k]` is the first specifier with operator `==`. */
  predicate FirstExact(specs: seq<Spec>, k: int)
  {
    0 <= k < |specs| && specs[k].op == "==" && forall j :: 0 <= j < k ==> specs[j].op != "=="
  }

  /**
   The effect of line `i`, stated against the requirement parser's answer
   for that line stripped: a rejected line is reported missing as written
   (unstripped) and leaves the packages alone; a line without a requirement
   changes nothing; a requirement whose first `==` specifier is `specs[k]`
   sets its project's version to that specifier's version; a requirement
   without `==` specifier reports its project name as missing.
   */
  lemma {:induction false} LineEffect(lines: seq<string>, i: nat, parse: RequirementParser)
    requires i < |lines|
    ensures var req, before, after := parse(Text.Strip(lines[i])), Outcomes(lines[..i], parse), Outcomes(lines[..i + 1], parse);
      && (req.Invalid? ==>
            PackagesOf(after) == PackagesOf(before) && MissingOf(after) == MissingOf(before) + [lines[i]])
      && (req.NoRequirement? ==>
            PackagesOf(after) == PackagesOf(before) && MissingOf(after) == MissingOf(before))
      && (req.Requirement? && (forall s :: s in req.specs ==> s.op != "==") ==>
            PackagesOf(after) == PackagesOf(before) && MissingOf(after) == MissingOf(before) + [req.projectName])
      && (forall k :: req.Requirement? && FirstExact(req.specs, k) ==>
            PackagesOf(after) == PackagesOf(before)[req.projectName := req.specs[k].version]
            && MissingOf(after) == MissingOf(before))
  {
    OutcomesStep(lines, i, parse);
    OutcomesLast(Outcomes(lines[..i + 1], parse));
    var req := parse(Text.Strip(lines[i]));
    if req.Requirement? {
      var exact := ExactPins(req.specs);
      if exact != [] {
        assert exact[0] in exact;
        var k0 :| 0 <= k0 < |req.specs| && req.specs[k0] == exact[0]
                  && forall j :: 0 <= j < k0 ==> req.specs[j].op != "==";
        assert forall k :: FirstExact(req.specs, k) ==> k == k0;
      }
    }
  }

  /**
   Each line has exactly one outcome: it pins a package, it is reported
   missing, or it is skipped. So there are at most as many pins and missing
   entries together as lines, and exactly as many when no line is skipped.
   */
  lemma {:induction false} OutcomeCount(outs: seq<LineOutcome>)
    ensures |PinsOf(outs)| + |MissingOf(outs)| <= |outs|
    ensures (forall k :: 0 <= k < |outs| ==> !outs[k].Skipped?)
            ==> |PinsOf(outs)| + |MissingOf(outs)| == |outs|
  {
    if outs != [] {
      var prefix := outs[..|outs| - 1];
      OutcomeCount(prefix);
      assert forall k :: 0 <= k < |prefix| ==> prefix[k] == outs[k];
    }
  }

  /** A package is in the result exactly when some line pins it. */
  lemma {:induction false} PackagesKeys(outs: seq<LineOutcome>, name: string)
    ensures name in PackagesOf(outs) <==> exists k :: 0 <= k < |outs| && outs[k].PinsPackage(name)
  {
    if outs != [] {
      var n := |outs|;
      var prefix := outs[..n - 1];
      PackagesKeys(prefix, name);
      OutcomesLast(outs);
      if exists k :: 0 <= k < n && outs[k].PinsPackage(name) {
        var k :| 0 <= k < n && outs[k].PinsPackage(name);
        if k < n - 1 {
          assert prefix[k] == outs[k];
        }
      }
      if exists k :: 0 <= k < n - 1 && prefix[k].PinsPackage(name) {
        var k :| 0 <= k < n - 1 && prefix[k].PinsPackage(name);
        assert prefix[k] == outs[k];
      }
    }
  }

  /**
   The version recorded for a package is the one pinned by the LAST line that
   pins it: a later `==` line for the same project overwrites an earlier one.
   */
  lemma {:induction false} PackagesLastWins(outs: seq<LineOutcome>, name: string)
    requires name in PackagesOf(outs)
    ensures exists k :: 0 <= k < |outs| && outs[k] == Pinned(name, PackagesOf(outs)[name])
                        && forall j :: k < j < |outs| ==> !outs[j].PinsPackage(name)
  {
    var n := |outs|;
    var prefix := outs[..n - 1];
    var last := outs[n - 1];
    OutcomesLast(outs);
    if last.PinsPackage(name) {
      assert PackagesOf(outs)[name] == last.version;
    } else {
      assert name in PackagesOf(prefix) && PackagesOf(outs)[name] == PackagesOf(prefix)[name];
      PackagesLastWins(prefix, name);
      var k :| 0 <= k < n - 1 && prefix[k] == Pinned(name, PackagesOf(prefix)[name])
               && forall j :: k < j < n - 1 ==> !prefix[j].PinsPackage(name);
      assert outs[k] == prefix[k];
      assert forall j :: k < j < n - 1 ==> outs[j] == prefix[j];
    }
  }

  /**
   Every missing entry comes from one line: either the raw text of a line the
   requirement parser rejected, or the project name of a requirement without
   an `==` specifier; and each such line contributes its entry.
   */
  lemma {:induction false} MissingFromLines(outs: seq<LineOutcome>, entry: string)
    ensures entry in MissingOf(outs) <==> exists k :: 0 <= k < |outs| && outs[k] == Unresolved(entry)
  {
    if outs != [] {
      var n := |outs|;
      var prefix := outs[..n - 1];
      MissingFromLines(prefix, entry);
      OutcomesLast(outs);
      if exists k :: 0 <= k < n && outs[k] == Unresolved(entry) {
        var k :| 0 <= k < n && outs[k] == Unresolved(entry);
        if k < n - 1 {
          assert prefix[k] == outs[k];
        }
      }
      if exists k :: 0 <= k < n - 1 && prefix[k] == Unresolved(entry) {
        var k :| 0 <= k < n - 1 && prefix[k] == Unresolved(entry);
        assert prefix[k] == outs[k];
      }
    }
  }
}
