/**
 * The projection a single `copy_element` call performs, as a pure function of
 * the record it starts from.
 *
 * `Project(m, s, d, cb)` is the set of keys one copy writes, with their
 * values, and the sequence of callback invocations it makes.  Both are
 * computed on the record `m` as it was before the copy: because every key a
 * copy writes lies below `d`, and `d` is incomparable with `s`, nothing a copy
 * writes is ever read again by the same copy (see `ProjectLocal`), so the
 * in-place algorithm of module Copier produces exactly this effect.
 */
module Projection {
  import opened Paths

  /**
   * A value of the metadata record.  The reader stores strings; counts are
   * integers; a missing element text is Python's None.
   */
  datatype Value = Str(text: string) | Num(number: nat) | Null

  type Record = map<string, Value>

  /** The callbacks the NRD reader passes to `copy_element`. */
  datatype Callback = NoCallback | Person | Document | Funding | File

  /** One call of a callback with the (possibly indexed) source and destination keys. */
  datatype Invocation = Invocation(callback: Callback, source: string, dest: string)

  datatype Option<T> = None | Some(value: T)

  /** What a copy does: the keys it writes with their final values, and its callback calls. */
  datatype Effect = Effect(writes: Record, calls: seq<Invocation>) {
    /** This effect followed by `next`: later writes win, calls are concatenated. */
    function Then(next: Effect): Effect {
      Effect(writes + next.writes, calls + next.calls)
    }
  }

  const Nothing: Effect := Effect(map[], [])

  /** Nesting depth of callbacks: each callback only passes callbacks of lower rank. */
  function Rank(cb: Callback): nat {
    match cb
    case NoCallback => 0
    case Person => 1
    case File => 1
    case Funding => 2
    case Document => 2
  }

  /** The keys of `m` at or below the string `s`. */
  function Subtree(m: Record, s: string): set<string> {
    set k | k in m && HasPrefix(k, s)
  }

  /** The count value `copy_element` reads for `s`: `s.count`, or 0 when absent. */
  function CountValue(m: Record, s: string): Value {
    if CountKey(s) in m then m[CountKey(s)] else Num(0)
  }

  /**
   * The repeat count that value stands for, where a missing key, None and the
   * empty string are all falsy, i.e. 0.
   */
  function CountOf(m: Record, s: string): nat {
    if CountValue(m, s).Num? then CountValue(m, s).number else 0
  }

  /** Python truthiness of a value, as `if not count` tests it. */
  predicate Truthy(v: Value) {
    match v
    case Str(t) => |t| > 0
    case Num(n) => n != 0
    case Null => false
  }

  /** A count value Python can both test for truth and iterate `range` over. */
  predicate Countable(v: Value) {
    v.Num? || v == Null || v == Str("")
  }

  /** Every count key at or below `s` holds a countable value. */
  predicate CountsAreNumbers(m: Record, s: string) {
    forall k | k in m && HasPrefix(k, s) && IsCountKey(k) :: Countable(m[k])
  }

  /** The two records have the same keys and values at and below `s`. */
  ghost predicate AgreeFrom(m: Record, m': Record, s: string) {
    forall k | HasPrefix(k, s) :: (k in m <==> k in m') && (k in m ==> m[k] == m'[k])
  }

  // ---------------------------------------------------------------------------
  // Termination helpers

  lemma SubtreeShrinks(m: Record, s: string, s': string, w: string)
    requires HasPrefix(s', s) && w in m && HasPrefix(w, s) && !HasPrefix(w, s')
    ensures Subtree(m, s') < Subtree(m, s)
  {
    forall k | k in Subtree(m, s') ensures k in Subtree(m, s) {
      PrefixTransitive(k, s', s);
    }
    assert w in Subtree(m, s) - Subtree(m, s');
  }

  /** A present key's proper extensions have strictly smaller subtrees. */
  lemma ChildShrinks(m: Record, s: string, x: string)
    requires s in m && |x| > 0
    ensures Subtree(m, s + x) < Subtree(m, s)
  {
    PrefixOfConcat(s, x);
    assert HasPrefix(s, s);
    SubtreeShrinks(m, s, s + x, s);
  }

  /** Instances of a counted element have strictly smaller subtrees. */
  lemma IndexShrinks(m: Record, s: string, i: nat)
    requires CountKey(s) in m
    ensures Subtree(m, Indexed(s, i)) < Subtree(m, s)
  {
    IndexedHasPrefix(s, i);
    CountKeyIsCountKey(s);
    CountKeyNotIndexed(s, i);
    SubtreeShrinks(m, s, Indexed(s, i), CountKey(s));
  }

  // ---------------------------------------------------------------------------
  // The projection

  /**
   * The effect of `copy_element(s, d, m, cb)`.  A present key is copied as a
   * scalar; an absent key with a positive count copies `d.count` and every
   * instance in ascending order; an absent key with no count does nothing.
   */
  function Project(m: Record, s: string, d: string, cb: Callback): Effect
    decreases Rank(cb), Subtree(m, s), 3, 0
  {
    if s in m then
      ProjectScalar(m, s, d, cb)
    else if CountOf(m, s) == 0 then
      Nothing
    else
      Effect(map[CountKey(d) := m[CountKey(s)]], [])
        .Then(ProjectUpTo(m, s, d, cb, CountOf(m, s)))
  }

  /**
   * A present key copied as a scalar: its value, then its language (three
   * spellings, later ones winning), then its `@rdf:resource` (overriding the
   * value), then the callback.
   */
  function ProjectScalar(m: Record, s: string, d: string, cb: Callback): Effect
    requires s in m
    decreases Rank(cb), Subtree(m, s), 2, 0
  {
    ChildShrinks(m, s, "/language");
    ChildShrinks(m, s, "/@lang");
    ChildShrinks(m, s, "/@xml:lang");
    ChildShrinks(m, s, "/@rdf:resource");
    Effect(map[d := m[s]], [])
      .Then(Project(m, s + "/language", d + "/language", NoCallback))
      .Then(Project(m, s + "/@lang", d + "/language", NoCallback))
      .Then(Project(m, s + "/@xml:lang", d + "/language", NoCallback))
      .Then(Project(m, s + "/@rdf:resource", d, NoCallback))
      .Then(Invoke(m, cb, s, d))
  }

  /** Instances `0 .. n-1` of `s` copied to the same instances of `d`, in ascending order. */
  function ProjectUpTo(m: Record, s: string, d: string, cb: Callback, n: nat): Effect
    requires CountKey(s) in m
    decreases Rank(cb), Subtree(m, s), 1, n
  {
    if n == 0 then
      Nothing
    else
      IndexShrinks(m, s, n - 1);
      ProjectUpTo(m, s, d, cb, n - 1)
        .Then(Project(m, Indexed(s, n - 1), Indexed(d, n - 1), cb))
  }

  /**
   * The effect of calling callback `cb` with `(s, d)`: the invocation itself
   * followed by the copies the callback makes.
   */
  function Invoke(m: Record, cb: Callback, s: string, d: string): Effect
    decreases Rank(cb), Subtree(m, s), 1, 0
  {
    match cb
    case NoCallback => Nothing
    case Person => PersonAttrs(m, s, d)
    case Document => DocumentAttrs(m, s, d)
    case Funding => FundingAttrs(m, s, d)
    case File => FileAttrs(m, s, d)
  }

  /** `person_attrs`: name, email and phone of a person. */
  function PersonAttrs(m: Record, s: string, d: string): Effect
    decreases Rank(Person), Subtree(m, s), 0, 0
  {
    Effect(map[], [Invocation(Person, s, d)])
      .Then(Project(m, s + "/foaf:name", d + "/name", NoCallback))
      .Then(Project(m, s + "/foaf:mbox", d + "/email", NoCallback))
      .Then(Project(m, s + "/foaf:phone", d + "/phone", NoCallback))
  }

  /** `document_attrs`: title, identifier, creators and description of a document. */
  function DocumentAttrs(m: Record, s: string, d: string): Effect
    decreases Rank(Document), Subtree(m, s), 0, 0
  {
    Effect(map[], [Invocation(Document, s, d)])
      .Then(Project(m, s + "/dct:title", d + "/title", NoCallback))
      .Then(Project(m, s + "/dct:identifier", d, NoCallback))
      .Then(Project(m, s + "/dct:creator", d + "/creator.0/name", NoCallback))
      .Then(Project(m, s + "/nrd:creator", d + "/creator", Person))
      .Then(Project(m, s + "/dct:description", d + "/description", NoCallback))
  }

  /** `funding_attrs`: grant number and funder of a project. */
  function FundingAttrs(m: Record, s: string, d: string): Effect
    decreases Rank(Funding), Subtree(m, s), 0, 0
  {
    Effect(map[], [Invocation(Funding, s, d)])
      .Then(Project(m, s + "/rev:arpfo:funds.0/arpfo:grantNumber", d + "/fundingNumber", NoCallback))
      .Then(Project(m, s + "/rev:arpfo:funds.0/rev:arpfo:provides", d + "/funder", Person))
  }

  /** `file_attrs`: media type, checksum with its algorithm, and size of a file. */
  function FileAttrs(m: Record, s: string, d: string): Effect
    decreases Rank(File), Subtree(m, s), 0, 0
  {
    Effect(map[], [Invocation(File, s, d)])
      .Then(Project(m, s + "/dcat:mediaType", d + "/mimetype", NoCallback))
      .Then(Project(m, s + "/fp:checksum.0/fp:checksumValue.0", d + "/checksum.0", NoCallback))
      .Then(Project(m, s + "/fp:checksum.0/fp:generator.0", d + "/checksum.0/algorithm", NoCallback))
      .Then(Project(m, s + "/dcat:byteSize", d + "/size", NoCallback))
  }

  /** The record after `copy_element(s, d, m, cb)`. */
  function Copied(m: Record, s: string, d: string, cb: Callback): Record {
    m + Project(m, s, d, cb).writes
  }
}
