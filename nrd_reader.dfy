/**
 * `nrd_metadata_reader`: the fixed table of copies from the flattened NRD
 * RDF record to the format-independent keys, applied in table order, and the
 * best-effort post-processing of the `rights` element.
 */
module NrdReader {
  import opened Paths
  import opened Projection
  import opened CopyLaws
  import opened CopyProperties
  import opened Copier

  /** The key of the NRD dataset element all rule sources lie under. */
  const Root := "dataset"

  /** One row of the mapping table: `copy_element(source, dest, result, callback)`. */
  datatype Rule = Rule(source: string, dest: string, callback: Callback)

  /** The mapping table, in the order it is applied. */
  const Rules: seq<Rule> := [
    Rule(Root, "versionidentifier", NoCallback),
    Rule(Root + "/nrd:continuityIdentifier", "continuityidentifier", NoCallback),
    Rule(Root + "/rev:foaf:primaryTopic.0/nrd:metadataIdentifier", "metadata/identifier", NoCallback),
    Rule(Root + "/rev:foaf:primaryTopic.0/nrd:metadataModified", "metadata/modified", NoCallback),
    Rule(Root + "/dct:title", "title", NoCallback),
    Rule(Root + "/nrd:modified", "modified", NoCallback),
    Rule(Root + "/nrd:rights", "rights", NoCallback),
    Rule(Root + "/nrd:language", "language", NoCallback),
    Rule(Root + "/nrd:owner", "owner", Person),
    Rule(Root + "/nrd:creator", "creator", Person),
    Rule(Root + "/nrd:distributor", "distributor", Person),
    Rule(Root + "/nrd:contributor", "contributor", Person),
    Rule(Root + "/nrd:subject", "subject", NoCallback),
    Rule(Root + "/nrd:producerProject", "project", Funding),
    Rule(Root + "/dct:isPartOf", "collection", Document),
    Rule(Root + "/dct:requires", "requires", NoCallback),
    Rule(Root + "/nrd:discipline", "discipline", NoCallback),
    Rule(Root + "/nrd:temporal", "temporalcoverage", NoCallback),
    Rule(Root + "/nrd:spatial", "spatialcoverage", NoCallback),
    Rule(Root + "/nrd:manifestation", "resource", File),
    Rule(Root + "/nrd:observationMatrix", "variables", NoCallback),
    Rule(Root + "/nrd:usedByPublication", "publication", Document),
    Rule(Root + "/dct:description", "description", NoCallback)
  ]

  /** A rule reads below the dataset element and writes outside it. */
  predicate RuleOk(r: Rule) {
    HasPrefix(r.source, Root) && Incomparable(Root, r.dest)
  }

  // ---------------------------------------------------------------------------
  // Reference definitions

  /** The record after applying `rules` in order, each to the record the previous ones left. */
  function Applied(m: Record, rules: seq<Rule>): Record
    decreases |rules|
  {
    if rules == [] then m
    else
      var r := rules[|rules| - 1];
      Copied(Applied(m, rules[..|rules| - 1]), r.source, r.dest, r.callback)
  }

  /** The record after overlaying, in order, what each rule projects from `m` itself. */
  function FromInput(m: Record, rules: seq<Rule>): Record
    decreases |rules|
  {
    if rules == [] then m
    else
      var r := rules[|rules| - 1];
      FromInput(m, rules[..|rules| - 1]) + Project(m, r.source, r.dest, r.callback).writes
  }

  /** The callback invocations of `rules` in table order, each projected from `m`. */
  function TableCalls(m: Record, rules: seq<Rule>): seq<Invocation>
    decreases |rules|
  {
    if rules == [] then []
    else
      var r := rules[|rules| - 1];
      TableCalls(m, rules[..|rules| - 1]) + Project(m, r.source, r.dest, r.callback).calls
  }

  // ---------------------------------------------------------------------------
  // The table

  /** Every rule of the table reads below `dataset` and writes outside it. */
  lemma RulesWellFormed()
    ensures |Rules| == 23
    ensures forall i | 0 <= i < |Rules| :: RuleOk(Rules[i])
  {
    assert HasPrefix(Root, Root);
    forall i | 1 <= i < |Rules| ensures HasPrefix(Rules[i].source, Root) {
      PrefixOfConcat(Root, Rules[i].source[|Root|..]);
      assert Rules[i].source == Root + Rules[i].source[|Root|..];
    }
    forall i | 0 <= i < |Rules| ensures Incomparable(Root, Rules[i].dest) {
      var dest := Rules[i].dest;
      if dest[0] == 'd' {
        ApartIncomparable(Root, dest, 1);
      } else {
        ApartIncomparable(Root, dest, 0);
      }
    }
  }

  /** A rule that reads below `dataset` and writes outside it copies between disjoint trees. */
  lemma RuleIncomparable(r: Rule)
    requires RuleOk(r)
    ensures Incomparable(r.source, r.dest)
  {
    assert HasPrefix(r.dest, r.dest);
    IncomparableExtend(Root, r.dest, r.source, r.dest);
  }

  /** Counts that are numbers at and below `Root` are numbers below any rule source. */
  lemma CountsNarrow(m: Record, s: string, s': string)
    requires CountsAreNumbers(m, s) && HasPrefix(s', s)
    ensures CountsAreNumbers(m, s')
  {
    forall k | k in m && HasPrefix(k, s') && IsCountKey(k) ensures Countable(m[k]) {
      PrefixTransitive(k, s', s);
    }
  }

  /**
   * Each rule reads only the input: applying the rules in order gives the
   * same record as overlaying what each projects from the input, and the
   * dataset subtree of the input is never changed.
   */
  lemma {:induction false} RulesReadInput(m: Record, rules: seq<Rule>)
    requires forall i | 0 <= i < |rules| :: RuleOk(rules[i])
    ensures Applied(m, rules) == FromInput(m, rules)
    ensures AgreeFrom(Applied(m, rules), m, Root)
  {
    if rules != [] {
      var init, r := rules[..|rules| - 1], rules[|rules| - 1];
      assert forall i | 0 <= i < |init| :: init[i] == rules[i];
      RulesReadInput(m, init);
      var before := Applied(m, init);
      AgreeNarrow(before, m, Root, r.source);
      ProjectLocal(before, m, r.source, r.dest, r.callback);
      ProjectWrites(m, r.source, r.dest, r.callback);
      OverlayKeepsAgree(before, m, Project(m, r.source, r.dest, r.callback).writes, Root, r.dest);
    } else {
      assert forall k | HasPrefix(k, Root) :: (k in m <==> k in m) && (k in m ==> m[k] == m[k]);
    }
  }

  // ---------------------------------------------------------------------------
  // Rights post-processing

  /**
   * What parsing the `rights` XML text gives, where it succeeds: the
   * `RIGHTSCATEGORY` attribute if there is one, and the text of the first
   * child element (`Str` or `Null`) if there is a first child.
   */
  datatype RightsDoc = RightsDoc(category: Option<string>, firstText: Option<Value>)

  /** ASCII lower-casing of one character. */
  function LowerChar(c: char): (r: char)
    ensures 'A' <= c <= 'Z' ==> r as int == c as int + 32
    ensures !('A' <= c <= 'Z') ==> r == c
  {
    if 'A' <= c <= 'Z' then (c as int + 32) as char else c
  }

  /** ASCII lower-casing of a string, character by character. */
  function Lower(s: string): (r: string)
    ensures |r| == |s|
    ensures forall i | 0 <= i < |s| :: r[i] == LowerChar(s[i])
  {
    if s == [] then [] else [LowerChar(s[0])] + Lower(s[1..])
  }

  /** The lower-cased rights category, when `rights` is a string that parses and has one. */
  function RightsClass(m: Record, parse: string -> Option<RightsDoc>): Option<string> {
    if "rights" in m && m["rights"].Str? && parse(m["rights"].text).Some?
       && parse(m["rights"].text).value.category.Some?
    then Some(Lower(parse(m["rights"].text).value.category.value))
    else None
  }

  /** The text of the first child of the parsed `rights`, when it has one. */
  function FirstText(m: Record, parse: string -> Option<RightsDoc>): Option<Value>
    requires RightsClass(m, parse).Some?
  {
    parse(m["rights"].text).value.firstText
  }

  /**
   * The record after the rights step.  `rightsclass` is written first; a
   * missing first child then stops the step, leaving `rightsclass` in place.
   */
  function WithRights(m: Record, parse: string -> Option<RightsDoc>): (r: Record)
    ensures RightsClass(m, parse).None? ==> r == m
    ensures RightsClass(m, parse).Some? ==> "rightsclass" in r && r["rightsclass"] == Str(RightsClass(m, parse).value)
    ensures if RightsClass(m, parse) == Some("licensed") && FirstText(m, parse).Some?
      then "license" in r && r["license"] == FirstText(m, parse).value
      else SameAt(m, r, "license")
    ensures if RightsClass(m, parse) == Some("contractual") && FirstText(m, parse).Some?
      then "accessURL" in r && r["accessURL"] == FirstText(m, parse).value
      else SameAt(m, r, "accessURL")
    ensures forall k | k in m :: k in r
    ensures forall k | k != "rightsclass" && k != "license" && k != "accessURL" :: SameAt(m, r, k)
  {
    match RightsClass(m, parse)
    case None => m
    case Some(cls) =>
      var m1 := m["rightsclass" := Str(cls)];
      if FirstText(m, parse).None? then m1
      else if cls == "licensed" then m1["license" := FirstText(m, parse).value]
      else if cls == "contractual" then m1["accessURL" := FirstText(m, parse).value]
      else m1
  }

  /**
   * The rights step on the record of `dict`, as the `try` block runs it:
   * each failure (no `rights` string, a parse error, no category, no first
   * child where one is read) ends the step, keeping what it wrote so far.
   */
  method PostProcessRights(dict: MetadataDict, parse: string -> Option<RightsDoc>)
    modifies dict
    ensures dict.md == WithRights(old(dict.md), parse)
    ensures dict.calls == old(dict.calls)
  {
    if "rights" !in dict.md || !dict.md["rights"].Str? {
      return;
    }
    var doc := parse(dict.md["rights"].text);
    if doc.None? || doc.value.category.None? {
      return;
    }
    var rightsclass := Lower(doc.value.category.value);
    dict.md := dict.md["rightsclass" := Str(rightsclass)];
    if rightsclass == "licensed" {
      if doc.value.firstText.None? {
        return;
      }
      dict.md := dict.md["license" := doc.value.firstText.value];
    }
    if rightsclass == "contractual" {
      if doc.value.firstText.None? {
        return;
      }
      dict.md := dict.md["accessURL" := doc.value.firstText.value];
    }
  }

  /**
   * A record that agrees with the input under `dataset` meets what a copy of
   * rule `r` demands, and projects `r` as the input does.
   */
  lemma RuleReady(md: Record, input: Record, r: Rule)
    requires RuleOk(r) && CountsAreNumbers(input, Root) && AgreeFrom(md, input, Root)
    ensures Incomparable(r.source, r.dest) && CountsAreNumbers(md, r.source)
    ensures Project(md, r.source, r.dest, r.callback) == Project(input, r.source, r.dest, r.callback)
  {
    RuleIncomparable(r);
    CountsKept(md, input, Root);
    CountsNarrow(md, Root, r.source);
    AgreeNarrow(md, input, Root, r.source);
    ProjectLocal(md, input, r.source, r.dest, r.callback);
  }

  /** The invocations of one more rule are appended after those of the rules before it. */
  lemma TableCallsSnoc(m: Record, c0: seq<Invocation>, done: seq<Rule>, r: Rule)
    ensures c0 + TableCalls(m, done + [r]) == (c0 + TableCalls(m, done)) + Project(m, r.source, r.dest, r.callback).calls
  {
    assert (done + [r])[..|done|] == done;
  }

  /** One pass of the loop body: the copy of `r`, after the rules `done`. */
  method ApplyRule(dict: MetadataDict, ghost input: Record, ghost c0: seq<Invocation>, ghost done: seq<Rule>, r: Rule)
    requires forall i | 0 <= i < |done| :: RuleOk(done[i])
    requires RuleOk(r) && CountsAreNumbers(input, Root)
    requires dict.md == Applied(input, done) && AgreeFrom(dict.md, input, Root)
    requires dict.calls == c0 + TableCalls(input, done)
    modifies dict
    ensures dict.md == Applied(input, done + [r])
    ensures dict.calls == c0 + TableCalls(input, done + [r])
    ensures AgreeFrom(dict.md, input, Root)
  {
    RuleReady(dict.md, input, r);
    TableCallsSnoc(input, c0, done, r);
    dict.CopyElement(r.source, r.dest, r.callback);
    RulesReadInput(input, done + [r]);
  }

  /**
   * The loop of `nrd_metadata_reader` over a table of rules: each rule's copy
   * applied in place, in order, to the record of `dict`, with the callback
   * invocations of every rule recorded in table order.
   */
  method ApplyRules(dict: MetadataDict, rules: seq<Rule>)
    requires forall i | 0 <= i < |rules| :: RuleOk(rules[i])
    requires CountsAreNumbers(dict.md, Root)
    modifies dict
    ensures dict.md == Applied(old(dict.md), rules)
    ensures dict.md == FromInput(old(dict.md), rules)
    ensures dict.calls == old(dict.calls) + TableCalls(old(dict.md), rules)
  {
    ghost var input := dict.md;
    ghost var c0 := dict.calls;
    assert c0 + [] == c0;
    var i := 0;
    while i < |rules|
      invariant 0 <= i <= |rules|
      invariant dict.md == Applied(input, rules[..i])
      invariant dict.calls == c0 + TableCalls(input, rules[..i])
      invariant AgreeFrom(dict.md, input, Root)
    {
      ApplyRule(dict, input, c0, rules[..i], rules[i]);
      assert rules[..i] + [rules[i]] == rules[..i + 1];
      i := i + 1;
    }
    assert rules[..i] == rules;
    RulesReadInput(input, rules);
  }

  /**
   * `nrd_metadata_reader` on the flattened record `input`: every rule of the
   * table applied once, in table order, then the rights step.
   */
  method ReadNrd(input: Record, parse: string -> Option<RightsDoc>) returns (result: Record)
    requires CountsAreNumbers(input, Root)
    ensures result == WithRights(Applied(input, Rules), parse)
    ensures result == WithRights(FromInput(input, Rules), parse)
  {
    var dict := new MetadataDict(input);
    RulesWellFormed();
    ApplyRules(dict, Rules);
    PostProcessRights(dict, parse);
    result := dict.md;
  }
  // ---------------------------------------------------------------------------
  // Reading twice

  /** The writes of `rules`, each projected from `m`, later ones winning. */
  function TableWrites(m: Record, rules: seq<Rule>): Record
    decreases |rules|
  {
    if rules == [] then map[]
    else
      var r := rules[|rules| - 1];
      TableWrites(m, rules[..|rules| - 1]) + Project(m, r.source, r.dest, r.callback).writes
  }

  /** Overlaying the projections one by one is overlaying their union once. */
  lemma {:induction false} FromInputSplit(m: Record, rules: seq<Rule>)
    ensures FromInput(m, rules) == m + TableWrites(m, rules)
    decreases |rules|
  {
    if rules == [] {
      assert m + map[] == m;
    } else {
      var init, r := rules[..|rules| - 1], rules[|rules| - 1];
      FromInputSplit(m, init);
      var a, b := TableWrites(m, init), Project(m, r.source, r.dest, r.callback).writes;
      assert (m + a) + b == m + (a + b);
    }
  }

  /** The table's writes depend only on the `dataset` subtree. */
  lemma {:induction false} TableWritesLocal(x: Record, m: Record, rules: seq<Rule>)
    requires forall i | 0 <= i < |rules| :: RuleOk(rules[i])
    requires AgreeFrom(x, m, Root)
    ensures TableWrites(x, rules) == TableWrites(m, rules)
    decreases |rules|
  {
    if rules != [] {
      var init, r := rules[..|rules| - 1], rules[|rules| - 1];
      assert forall i | 0 <= i < |init| :: init[i] == rules[i];
      TableWritesLocal(x, m, init);
      AgreeNarrow(x, m, Root, r.source);
      ProjectLocal(x, m, r.source, r.dest, r.callback);
    }
  }

  /** A key below no destination of `rules` is never written by them. */
  lemma {:induction false} TableWritesMiss(m: Record, rules: seq<Rule>, k: string)
    requires forall i | 0 <= i < |rules| :: !Below(rules[i].dest, k)
    ensures k !in TableWrites(m, rules)
    decreases |rules|
  {
    if rules != [] {
      var init, r := rules[..|rules| - 1], rules[|rules| - 1];
      assert forall i | 0 <= i < |init| :: init[i] == rules[i];
      TableWritesMiss(m, init, k);
      ProjectWrites(m, r.source, r.dest, r.callback);
    }
  }

  /**
   * `k` is not below `d` when the two differ at a position inside `d`, or
   * when `k` continues `d` with a character other than `/` and `.`.
   */
  lemma NotBelowAt(d: string, k: string, i: nat)
    requires i < |k| && i <= |d|
    requires i < |d| ==> d[i] != k[i]
    requires i == |d| ==> k[i] != '/' && k[i] != '.'
    ensures !Below(d, k)
  {
    PrefixCharAt(k, d + "/", i);
    PrefixCharAt(k, d + ".", i);
  }

  /** No rights key lies below any destination of `rules`. */
  predicate AvoidsRights(rules: seq<Rule>) {
    forall i | 0 <= i < |rules| ::
      !Below(rules[i].dest, "rightsclass") && !Below(rules[i].dest, "license") && !Below(rules[i].dest, "accessURL")
  }

  /** `rightsclass` lies below no destination of the table. */
  lemma RightsClassOutside()
    ensures forall i | 0 <= i < |Rules| :: !Below(Rules[i].dest, "rightsclass")
  {
    forall i | 0 <= i < |Rules| ensures !Below(Rules[i].dest, "rightsclass") {
      var d := Rules[i].dest;
      if d == "rights" {
        NotBelowAt(d, "rightsclass", 6);
      } else if d[0] == 'r' {
        NotBelowAt(d, "rightsclass", 1);
      } else {
        NotBelowAt(d, "rightsclass", 0);
      }
    }
  }

  /** `license` lies below no destination of the table. */
  lemma LicenseOutside()
    ensures forall i | 0 <= i < |Rules| :: !Below(Rules[i].dest, "license")
  {
    forall i | 0 <= i < |Rules| ensures !Below(Rules[i].dest, "license") {
      var d := Rules[i].dest;
      if d[0] == 'l' {
        NotBelowAt(d, "license", 1);
      } else {
        NotBelowAt(d, "license", 0);
      }
    }
  }

  /** The table writes none of the rights keys. */
  lemma RulesAvoidRights()
    ensures AvoidsRights(Rules)
  {
    RightsClassOutside();
    LicenseOutside();
    forall i | 0 <= i < |Rules| ensures !Below(Rules[i].dest, "accessURL") {
      NotBelowAt(Rules[i].dest, "accessURL", 0);
    }
  }

  /** The rights step a second time changes nothing. */
  lemma RightsIdempotent(m: Record, parse: string -> Option<RightsDoc>)
    ensures WithRights(WithRights(m, parse), parse) == WithRights(m, parse)
  {
    var r := WithRights(m, parse);
    var r2 := WithRights(r, parse);
    assert SameAt(m, r, "rights");
    assert RightsClass(r, parse) == RightsClass(m, parse);
    forall k ensures SameAt(r, r2, k) {
    }
    assert r2 == r;
  }

  /** The rights step changes no key under `dataset`. */
  lemma RightsOutsideDataset(m: Record, parse: string -> Option<RightsDoc>)
    ensures AgreeFrom(WithRights(m, parse), m, Root)
  {
    forall k | HasPrefix(k, Root) ensures SameAt(WithRights(m, parse), m, k) {
      PrefixCharAt(k, Root, 0);
    }
  }

  /** Overlaying entries a record already holds changes nothing. */
  lemma OverlayHeld(m: Record, w: Record)
    requires forall k | k in w :: k in m && m[k] == w[k]
    ensures m + w == m
  {
  }

  /**
   * Reading twice with a table that reads only `dataset` and writes no
   * rights key gives the record a single reading gives.
   */
  lemma TableIdempotent(input: Record, rules: seq<Rule>, parse: string -> Option<RightsDoc>)
    requires forall i | 0 <= i < |rules| :: RuleOk(rules[i])
    requires AvoidsRights(rules)
    ensures var once := WithRights(FromInput(input, rules), parse);
      WithRights(FromInput(once, rules), parse) == once
  {
    RulesReadInput(input, rules);
    var w := TableWrites(input, rules);
    var m0 := FromInput(input, rules);
    FromInputSplit(input, rules);
    var once := WithRights(m0, parse);
    RightsOutsideDataset(m0, parse);
    TableWritesLocal(once, input, rules);
    FromInputSplit(once, rules);
    TableWritesMiss(input, rules, "rightsclass");
    TableWritesMiss(input, rules, "license");
    TableWritesMiss(input, rules, "accessURL");
    forall k | k in w ensures k in once && once[k] == w[k] {
      assert SameAt(m0, once, k);
    }
    OverlayHeld(once, w);
    RightsIdempotent(m0, parse);
  }

  /**
   * Reading is idempotent: reading the reader's own result again gives the
   * same record, since the rules read only `dataset`, which neither they nor
   * the rights step write, and all they write is already there.
   */
  lemma ReadIdempotent(input: Record, parse: string -> Option<RightsDoc>)
    ensures var once := WithRights(FromInput(input, Rules), parse);
      WithRights(FromInput(once, Rules), parse) == once
    ensures var once := WithRights(Applied(input, Rules), parse);
      WithRights(Applied(once, Rules), parse) == once
  {
    RulesWellFormed();
    RulesAvoidRights();
    TableIdempotent(input, Rules, parse);
    RulesReadInput(input, Rules);
    RulesReadInput(WithRights(Applied(input, Rules), parse), Rules);
  }
}
