/**
 * What a `copy_element` call guarantees, stated about the pure projection of
 * module Projection: which keys it writes, with which values, the order in
 * which overlapping writes win, and the callback invocations it makes.
 */
module CopyLaws {
  import opened Paths
  import opened Projection

  // ---------------------------------------------------------------------------
  // Writes: every key a projection writes lies below its destination.

  /** Every key written lies at or below `d`. */
  ghost predicate WritesBelow(w: Record, d: string) {
    forall k | k in w :: Below(d, k)
  }

  /** Every key written extends `p`. */
  ghost predicate WritesUnder(w: Record, p: string) {
    forall k | k in w :: HasPrefix(k, p)
  }

  /** Writes below a child `d + x` are writes below `d`. */
  lemma Widen(w: Record, d: string, x: string)
    requires |x| > 0 && (x[0] == '/' || x[0] == '.')
    requires WritesBelow(w, d + x)
    ensures WritesBelow(w, d)
  {
    forall k | k in w ensures Below(d, k) {
      BelowChild(d, x, k);
    }
  }

  /** Writes below instance `i` of `d` lie under `d.`, below `d`, and miss its count. */
  lemma WidenIndexed(w: Record, d: string, i: nat)
    requires WritesBelow(w, Indexed(d, i))
    ensures WritesUnder(w, d + ".") && WritesBelow(w, d) && CountKey(d) !in w
  {
    forall k | k in w ensures HasPrefix(k, d + ".") && Below(d, k) {
      BelowIndexed(d, i, k);
    }
    CountKeyNotIndexed(d, i);
  }

  /**
   * Writes below a named child of `d` other than `/language` touch neither
   * `d` itself nor its language key.
   */
  lemma Misses(w: Record, d: string, x: string)
    requires |x| > 1 && x[0] == '/' && x[1] != 'l'
    requires WritesBelow(w, d + x)
    ensures WritesBelow(w, d)
    ensures d !in w && d + "/language" !in w
  {
    Widen(w, d, x);
    ChildMissesNode(d, x);
  }

  lemma ProjectWrites(m: Record, s: string, d: string, cb: Callback)
    decreases Rank(cb), Subtree(m, s), 3, 0
    ensures WritesBelow(Project(m, s, d, cb).writes, d)
    ensures s !in m ==> WritesUnder(Project(m, s, d, cb).writes, d + ".")
  {
    if s in m {
      ScalarWrites(m, s, d, cb);
    } else if CountOf(m, s) != 0 {
      CountKeyIsCountKey(d);
      UpToWrites(m, s, d, cb, CountOf(m, s));
    }
  }

  lemma ScalarWrites(m: Record, s: string, d: string, cb: Callback)
    requires s in m
    decreases Rank(cb), Subtree(m, s), 2, 0
    ensures WritesBelow(ProjectScalar(m, s, d, cb).writes, d)
  {
    ChildShrinks(m, s, "/language");
    ChildShrinks(m, s, "/@lang");
    ChildShrinks(m, s, "/@xml:lang");
    ChildShrinks(m, s, "/@rdf:resource");
    ProjectWrites(m, s + "/language", d + "/language", NoCallback);
    ProjectWrites(m, s + "/@lang", d + "/language", NoCallback);
    ProjectWrites(m, s + "/@xml:lang", d + "/language", NoCallback);
    ProjectWrites(m, s + "/@rdf:resource", d, NoCallback);
    Widen(Project(m, s + "/language", d + "/language", NoCallback).writes, d, "/language");
    Widen(Project(m, s + "/@lang", d + "/language", NoCallback).writes, d, "/language");
    Widen(Project(m, s + "/@xml:lang", d + "/language", NoCallback).writes, d, "/language");
    InvokeWrites(m, cb, s, d);
  }

  lemma UpToWrites(m: Record, s: string, d: string, cb: Callback, n: nat)
    requires CountKey(s) in m
    decreases Rank(cb), Subtree(m, s), 1, n
    ensures WritesUnder(ProjectUpTo(m, s, d, cb, n).writes, d + ".")
    ensures WritesBelow(ProjectUpTo(m, s, d, cb, n).writes, d)
    ensures CountKey(d) !in ProjectUpTo(m, s, d, cb, n).writes
  {
    if n > 0 {
      IndexShrinks(m, s, n - 1);
      UpToWrites(m, s, d, cb, n - 1);
      ProjectWrites(m, Indexed(s, n - 1), Indexed(d, n - 1), cb);
      WidenIndexed(Project(m, Indexed(s, n - 1), Indexed(d, n - 1), cb).writes, d, n - 1);
    }
  }

  lemma InvokeWrites(m: Record, cb: Callback, s: string, d: string)
    decreases Rank(cb), Subtree(m, s), 1, 0
    ensures WritesBelow(Invoke(m, cb, s, d).writes, d)
    ensures cb != Document ==> d !in Invoke(m, cb, s, d).writes && d + "/language" !in Invoke(m, cb, s, d).writes
  {
    match cb
    case NoCallback =>
    case Person => PersonWrites(m, s, d);
    case Document => DocumentWrites(m, s, d);
    case Funding => FundingWrites(m, s, d);
    case File => FileWrites(m, s, d);
  }

  lemma PersonWrites(m: Record, s: string, d: string)
    decreases Rank(Person), Subtree(m, s), 0, 0
    ensures WritesBelow(PersonAttrs(m, s, d).writes, d)
    ensures d !in PersonAttrs(m, s, d).writes && d + "/language" !in PersonAttrs(m, s, d).writes
  {
    ProjectWrites(m, s + "/foaf:name", d + "/name", NoCallback);
    ProjectWrites(m, s + "/foaf:mbox", d + "/email", NoCallback);
    ProjectWrites(m, s + "/foaf:phone", d + "/phone", NoCallback);
    Misses(Project(m, s + "/foaf:name", d + "/name", NoCallback).writes, d, "/name");
    Misses(Project(m, s + "/foaf:mbox", d + "/email", NoCallback).writes, d, "/email");
    Misses(Project(m, s + "/foaf:phone", d + "/phone", NoCallback).writes, d, "/phone");
  }

  lemma DocumentWrites(m: Record, s: string, d: string)
    decreases Rank(Document), Subtree(m, s), 0, 0
    ensures WritesBelow(DocumentAttrs(m, s, d).writes, d)
  {
    ProjectWrites(m, s + "/dct:title", d + "/title", NoCallback);
    ProjectWrites(m, s + "/dct:identifier", d, NoCallback);
    ProjectWrites(m, s + "/dct:creator", d + "/creator.0/name", NoCallback);
    ProjectWrites(m, s + "/nrd:creator", d + "/creator", Person);
    ProjectWrites(m, s + "/dct:description", d + "/description", NoCallback);
    Widen(Project(m, s + "/dct:title", d + "/title", NoCallback).writes, d, "/title");
    Widen(Project(m, s + "/dct:creator", d + "/creator.0/name", NoCallback).writes, d, "/creator.0/name");
    Widen(Project(m, s + "/nrd:creator", d + "/creator", Person).writes, d, "/creator");
    Widen(Project(m, s + "/dct:description", d + "/description", NoCallback).writes, d, "/description");
  }

  lemma FundingWrites(m: Record, s: string, d: string)
    decreases Rank(Funding), Subtree(m, s), 0, 0
    ensures WritesBelow(FundingAttrs(m, s, d).writes, d)
    ensures d !in FundingAttrs(m, s, d).writes && d + "/language" !in FundingAttrs(m, s, d).writes
  {
    ProjectWrites(m, s + "/rev:arpfo:funds.0/arpfo:grantNumber", d + "/fundingNumber", NoCallback);
    ProjectWrites(m, s + "/rev:arpfo:funds.0/rev:arpfo:provides", d + "/funder", Person);
    Misses(Project(m, s + "/rev:arpfo:funds.0/arpfo:grantNumber", d + "/fundingNumber", NoCallback).writes,
      d, "/fundingNumber");
    Misses(Project(m, s + "/rev:arpfo:funds.0/rev:arpfo:provides", d + "/funder", Person).writes, d, "/funder");
  }

  lemma FileWrites(m: Record, s: string, d: string)
    decreases Rank(File), Subtree(m, s), 0, 0
    ensures WritesBelow(FileAttrs(m, s, d).writes, d)
    ensures d !in FileAttrs(m, s, d).writes && d + "/language" !in FileAttrs(m, s, d).writes
  {
    ProjectWrites(m, s + "/dcat:mediaType", d + "/mimetype", NoCallback);
    ProjectWrites(m, s + "/fp:checksum.0/fp:checksumValue.0", d + "/checksum.0", NoCallback);
    ProjectWrites(m, s + "/fp:checksum.0/fp:generator.0", d + "/checksum.0/algorithm", NoCallback);
    ProjectWrites(m, s + "/dcat:byteSize", d + "/size", NoCallback);
    Misses(Project(m, s + "/dcat:mediaType", d + "/mimetype", NoCallback).writes, d, "/mimetype");
    Misses(Project(m, s + "/fp:checksum.0/fp:checksumValue.0", d + "/checksum.0", NoCallback).writes,
      d, "/checksum.0");
    Misses(Project(m, s + "/fp:checksum.0/fp:generator.0", d + "/checksum.0/algorithm", NoCallback).writes,
      d, "/checksum.0/algorithm");
    Misses(Project(m, s + "/dcat:byteSize", d + "/size", NoCallback).writes, d, "/size");
  }

  // ---------------------------------------------------------------------------
  // Calls: which callbacks a projection invokes.

  /** Invocations made under callback `cb`: `cb` itself or callbacks it nests. */
  predicate CallsRanked(cs: seq<Invocation>, cb: Callback) {
    forall c | c in cs :: c.callback != NoCallback && (c.callback == cb || Rank(c.callback) < Rank(cb))
  }

  lemma ProjectCalls(m: Record, s: string, d: string, cb: Callback)
    decreases Rank(cb), Subtree(m, s), 3, 0
    ensures CallsRanked(Project(m, s, d, cb).calls, cb)
    ensures cb == NoCallback ==> Project(m, s, d, cb).calls == []
  {
    if s in m {
      ScalarCalls(m, s, d, cb);
    } else if CountOf(m, s) != 0 {
      UpToCalls(m, s, d, cb, CountOf(m, s));
    }
  }

  lemma ScalarCalls(m: Record, s: string, d: string, cb: Callback)
    requires s in m
    decreases Rank(cb), Subtree(m, s), 2, 0
    ensures CallsRanked(ProjectScalar(m, s, d, cb).calls, cb)
    ensures cb == NoCallback ==> ProjectScalar(m, s, d, cb).calls == []
  {
    ChildShrinks(m, s, "/language");
    ChildShrinks(m, s, "/@lang");
    ChildShrinks(m, s, "/@xml:lang");
    ChildShrinks(m, s, "/@rdf:resource");
    ProjectCalls(m, s + "/language", d + "/language", NoCallback);
    ProjectCalls(m, s + "/@lang", d + "/language", NoCallback);
    ProjectCalls(m, s + "/@xml:lang", d + "/language", NoCallback);
    ProjectCalls(m, s + "/@rdf:resource", d, NoCallback);
    InvokeCalls(m, cb, s, d);
  }

  lemma UpToCalls(m: Record, s: string, d: string, cb: Callback, n: nat)
    requires CountKey(s) in m
    decreases Rank(cb), Subtree(m, s), 1, n
    ensures CallsRanked(ProjectUpTo(m, s, d, cb, n).calls, cb)
    ensures cb == NoCallback ==> ProjectUpTo(m, s, d, cb, n).calls == []
  {
    if n > 0 {
      IndexShrinks(m, s, n - 1);
      UpToCalls(m, s, d, cb, n - 1);
      ProjectCalls(m, Indexed(s, n - 1), Indexed(d, n - 1), cb);
    }
  }

  lemma InvokeCalls(m: Record, cb: Callback, s: string, d: string)
    decreases Rank(cb), Subtree(m, s), 1, 0
    ensures cb == NoCallback ==> Invoke(m, cb, s, d) == Nothing
    ensures cb != NoCallback ==> |Invoke(m, cb, s, d).calls| > 0 && Invoke(m, cb, s, d).calls[0] == Invocation(cb, s, d)
    ensures cb != NoCallback ==> forall c | c in Invoke(m, cb, s, d).calls[1..] ::
      c.callback != NoCallback && Rank(c.callback) < Rank(cb)
  {
    match cb
    case NoCallback =>
    case Person => PersonCalls(m, s, d);
    case Document => DocumentCalls(m, s, d);
    case Funding => FundingCalls(m, s, d);
    case File => FileCalls(m, s, d);
  }

  lemma PersonCalls(m: Record, s: string, d: string)
    decreases Rank(Person), Subtree(m, s), 0, 0
    ensures PersonAttrs(m, s, d).calls == [Invocation(Person, s, d)]
  {
    ProjectCalls(m, s + "/foaf:name", d + "/name", NoCallback);
    ProjectCalls(m, s + "/foaf:mbox", d + "/email", NoCallback);
    ProjectCalls(m, s + "/foaf:phone", d + "/phone", NoCallback);
  }

  /** `document_attrs` invokes itself once, then only `person_attrs`. */
  lemma DocumentCalls(m: Record, s: string, d: string)
    decreases Rank(Document), Subtree(m, s), 0, 0
    ensures |DocumentAttrs(m, s, d).calls| > 0 && DocumentAttrs(m, s, d).calls[0] == Invocation(Document, s, d)
    ensures forall c | c in DocumentAttrs(m, s, d).calls[1..] :: c.callback == Person
  {
    ProjectCalls(m, s + "/dct:title", d + "/title", NoCallback);
    ProjectCalls(m, s + "/dct:identifier", d, NoCallback);
    ProjectCalls(m, s + "/dct:creator", d + "/creator.0/name", NoCallback);
    ProjectCalls(m, s + "/nrd:creator", d + "/creator", Person);
    ProjectCalls(m, s + "/dct:description", d + "/description", NoCallback);
  }

  /** `funding_attrs` invokes itself once, then only `person_attrs`. */
  lemma FundingCalls(m: Record, s: string, d: string)
    decreases Rank(Funding), Subtree(m, s), 0, 0
    ensures |FundingAttrs(m, s, d).calls| > 0 && FundingAttrs(m, s, d).calls[0] == Invocation(Funding, s, d)
    ensures forall c | c in FundingAttrs(m, s, d).calls[1..] :: c.callback == Person
  {
    ProjectCalls(m, s + "/rev:arpfo:funds.0/arpfo:grantNumber", d + "/fundingNumber", NoCallback);
    ProjectCalls(m, s + "/rev:arpfo:funds.0/rev:arpfo:provides", d + "/funder", Person);
  }

  lemma FileCalls(m: Record, s: string, d: string)
    decreases Rank(File), Subtree(m, s), 0, 0
    ensures FileAttrs(m, s, d).calls == [Invocation(File, s, d)]
  {
    ProjectCalls(m, s + "/dcat:mediaType", d + "/mimetype", NoCallback);
    ProjectCalls(m, s + "/fp:checksum.0/fp:checksumValue.0", d + "/checksum.0", NoCallback);
    ProjectCalls(m, s + "/fp:checksum.0/fp:generator.0", d + "/checksum.0/algorithm", NoCallback);
    ProjectCalls(m, s + "/dcat:byteSize", d + "/size", NoCallback);
  }

  // ---------------------------------------------------------------------------
  // Plain copies: what a copy without callback can write.

  /**
   * The keys a copy without callback can write for `d`: `d` itself, its
   * language subtree, and its count and instances.
   */
  predicate Plain(d: string, k: string) {
    k == d || Below(d + "/language", k) || HasPrefix(k, d + ".")
  }

  lemma {:induction false} ProjectPlain(m: Record, s: string, d: string)
    decreases Subtree(m, s)
    ensures forall k | k in Project(m, s, d, NoCallback).writes :: Plain(d, k)
  {
    if s in m {
      ChildShrinks(m, s, "/@rdf:resource");
      ProjectPlain(m, s + "/@rdf:resource", d);
      ProjectWrites(m, s + "/language", d + "/language", NoCallback);
      ProjectWrites(m, s + "/@lang", d + "/language", NoCallback);
      ProjectWrites(m, s + "/@xml:lang", d + "/language", NoCallback);
      assert Invoke(m, NoCallback, s, d) == Nothing;
    } else {
      ProjectWrites(m, s, d, NoCallback);
    }
  }

  // ---------------------------------------------------------------------------
  // Locality: a projection from `s` reads nothing outside the subtree of `s`.

  lemma AgreeNarrow(m: Record, m': Record, s: string, s': string)
    requires AgreeFrom(m, m', s) && HasPrefix(s', s)
    ensures AgreeFrom(m, m', s')
  {
    forall k | HasPrefix(k, s') ensures (k in m <==> k in m') && (k in m ==> m[k] == m'[k]) {
      PrefixTransitive(k, s', s);
    }
  }

  lemma AgreeChild(m: Record, m': Record, s: string, x: string)
    requires AgreeFrom(m, m', s)
    ensures AgreeFrom(m, m', s + x)
  {
    PrefixOfConcat(s, x);
    AgreeNarrow(m, m', s, s + x);
  }

  /** Two records that agree at and below `s` project `s` identically. */
  lemma ProjectLocal(m: Record, m': Record, s: string, d: string, cb: Callback)
    requires AgreeFrom(m, m', s)
    ensures Project(m, s, d, cb) == Project(m', s, d, cb)
    decreases Rank(cb), Subtree(m, s), 3, 0
  {
    assert HasPrefix(s, s);
    CountKeyIsCountKey(s);
    if s in m {
      ScalarLocal(m, m', s, d, cb);
    } else if CountOf(m, s) != 0 {
      UpToLocal(m, m', s, d, cb, CountOf(m, s));
    }
  }

  lemma ScalarLocal(m: Record, m': Record, s: string, d: string, cb: Callback)
    requires AgreeFrom(m, m', s) && s in m && s in m'
    ensures ProjectScalar(m, s, d, cb) == ProjectScalar(m', s, d, cb)
    decreases Rank(cb), Subtree(m, s), 2, 0
  {
    assert HasPrefix(s, s);
    ChildShrinks(m, s, "/language");
    ChildShrinks(m, s, "/@lang");
    ChildShrinks(m, s, "/@xml:lang");
    ChildShrinks(m, s, "/@rdf:resource");
    AgreeChild(m, m', s, "/language");
    AgreeChild(m, m', s, "/@lang");
    AgreeChild(m, m', s, "/@xml:lang");
    AgreeChild(m, m', s, "/@rdf:resource");
    ProjectLocal(m, m', s + "/language", d + "/language", NoCallback);
    ProjectLocal(m, m', s + "/@lang", d + "/language", NoCallback);
    ProjectLocal(m, m', s + "/@xml:lang", d + "/language", NoCallback);
    ProjectLocal(m, m', s + "/@rdf:resource", d, NoCallback);
    InvokeLocal(m, m', cb, s, d);
  }

  lemma UpToLocal(m: Record, m': Record, s: string, d: string, cb: Callback, n: nat)
    requires AgreeFrom(m, m', s) && CountKey(s) in m && CountKey(s) in m'
    ensures ProjectUpTo(m, s, d, cb, n) == ProjectUpTo(m', s, d, cb, n)
    decreases Rank(cb), Subtree(m, s), 1, n
  {
    if n > 0 {
      IndexShrinks(m, s, n - 1);
      IndexedHasPrefix(s, n - 1);
      AgreeNarrow(m, m', s, Indexed(s, n - 1));
      UpToLocal(m, m', s, d, cb, n - 1);
      ProjectLocal(m, m', Indexed(s, n - 1), Indexed(d, n - 1), cb);
    }
  }

  lemma InvokeLocal(m: Record, m': Record, cb: Callback, s: string, d: string)
    requires AgreeFrom(m, m', s)
    ensures Invoke(m, cb, s, d) == Invoke(m', cb, s, d)
    decreases Rank(cb), Subtree(m, s), 1, 0
  {
    match cb
    case NoCallback =>
    case Person => PersonLocal(m, m', s, d);
    case Document => DocumentLocal(m, m', s, d);
    case Funding => FundingLocal(m, m', s, d);
    case File => FileLocal(m, m', s, d);
  }

  lemma PersonLocal(m: Record, m': Record, s: string, d: string)
    requires AgreeFrom(m, m', s)
    ensures PersonAttrs(m, s, d) == PersonAttrs(m', s, d)
    decreases Rank(Person), Subtree(m, s), 0, 0
  {
    AgreeChild(m, m', s, "/foaf:name");
    AgreeChild(m, m', s, "/foaf:mbox");
    AgreeChild(m, m', s, "/foaf:phone");
    ProjectLocal(m, m', s + "/foaf:name", d + "/name", NoCallback);
    ProjectLocal(m, m', s + "/foaf:mbox", d + "/email", NoCallback);
    ProjectLocal(m, m', s + "/foaf:phone", d + "/phone", NoCallback);
  }

  lemma DocumentLocal(m: Record, m': Record, s: string, d: string)
    requires AgreeFrom(m, m', s)
    ensures DocumentAttrs(m, s, d) == DocumentAttrs(m', s, d)
    decreases Rank(Document), Subtree(m, s), 0, 0
  {
    AgreeChild(m, m', s, "/dct:title");
    AgreeChild(m, m', s, "/dct:identifier");
    AgreeChild(m, m', s, "/dct:creator");
    AgreeChild(m, m', s, "/nrd:creator");
    AgreeChild(m, m', s, "/dct:description");
    ProjectLocal(m, m', s + "/dct:title", d + "/title", NoCallback);
    ProjectLocal(m, m', s + "/dct:identifier", d, NoCallback);
    ProjectLocal(m, m', s + "/dct:creator", d + "/creator.0/name", NoCallback);
    ProjectLocal(m, m', s + "/nrd:creator", d + "/creator", Person);
    ProjectLocal(m, m', s + "/dct:description", d + "/description", NoCallback);
  }

  lemma FundingLocal(m: Record, m': Record, s: string, d: string)
    requires AgreeFrom(m, m', s)
    ensures FundingAttrs(m, s, d) == FundingAttrs(m', s, d)
    decreases Rank(Funding), Subtree(m, s), 0, 0
  {
    AgreeChild(m, m', s, "/rev:arpfo:funds.0/arpfo:grantNumber");
    AgreeChild(m, m', s, "/rev:arpfo:funds.0/rev:arpfo:provides");
    ProjectLocal(m, m', s + "/rev:arpfo:funds.0/arpfo:grantNumber", d + "/fundingNumber", NoCallback);
    ProjectLocal(m, m', s + "/rev:arpfo:funds.0/rev:arpfo:provides", d + "/funder", Person);
  }

  lemma FileLocal(m: Record, m': Record, s: string, d: string)
    requires AgreeFrom(m, m', s)
    ensures FileAttrs(m, s, d) == FileAttrs(m', s, d)
    decreases Rank(File), Subtree(m, s), 0, 0
  {
    AgreeChild(m, m', s, "/dcat:mediaType");
    AgreeChild(m, m', s, "/fp:checksum.0/fp:checksumValue.0");
    AgreeChild(m, m', s, "/fp:checksum.0/fp:generator.0");
    AgreeChild(m, m', s, "/dcat:byteSize");
    ProjectLocal(m, m', s + "/dcat:mediaType", d + "/mimetype", NoCallback);
    ProjectLocal(m, m', s + "/fp:checksum.0/fp:checksumValue.0", d + "/checksum.0", NoCallback);
    ProjectLocal(m, m', s + "/fp:checksum.0/fp:generator.0", d + "/checksum.0/algorithm", NoCallback);
    ProjectLocal(m, m', s + "/dcat:byteSize", d + "/size", NoCallback);
  }

  // ---------------------------------------------------------------------------
  // Facts the in-place algorithm needs at each nested copy

  /** Applying an effect followed by another is applying one, then the other. */
  lemma ApplyThen(m: Record, c: seq<Invocation>, e: Effect, f: Effect)
    ensures m + e.Then(f).writes == (m + e.writes) + f.writes
    ensures c + e.Then(f).calls == (c + e.calls) + f.calls
  {
    assert forall k :: k in m + e.Then(f).writes <==> k in (m + e.writes) + f.writes;
  }

  /** Writing only below `d` keeps a record's agreement at and below `s`. */
  lemma OverlayKeepsAgree(md: Record, m: Record, w: Record, s: string, d: string)
    requires AgreeFrom(md, m, s) && Incomparable(s, d)
    requires WritesBelow(w, d)
    ensures AgreeFrom(md + w, m, s)
  {
    forall k | HasPrefix(k, s) ensures (k in md + w <==> k in m) && (k in md + w ==> (md + w)[k] == m[k]) {
      BelowNotUnder(s, d, k);
    }
  }

  /** A record agreeing with `m` at and below `s` has its subtree and its counts there. */
  lemma CountsKept(md: Record, m: Record, s: string)
    requires AgreeFrom(md, m, s) && CountsAreNumbers(m, s)
    ensures CountsAreNumbers(md, s)
    ensures Subtree(md, s) == Subtree(m, s)
  {
  }

  /**
   * A nested copy from `s'` (inside `s`) to `d'` (inside `d`) on a record that
   * still agrees with the original `m` at and below `s`: it meets the
   * preconditions of `copy_element`, it projects as it would on `m`, and
   * afterwards the record still agrees with `m` at and below `s`.
   */
  lemma SubCopy(md: Record, m: Record, s: string, d: string, s': string, d': string, cb: Callback)
    requires AgreeFrom(md, m, s) && Incomparable(s, d) && CountsAreNumbers(m, s)
    requires HasPrefix(s', s) && HasPrefix(d', d)
    requires forall k :: Below(d', k) ==> Below(d, k)
    ensures Incomparable(s', d')
    ensures CountsAreNumbers(md, s')
    ensures Subtree(md, s') == Subtree(m, s')
    ensures Project(md, s', d', cb) == Project(m, s', d', cb)
    ensures AgreeFrom(md + Project(m, s', d', cb).writes, m, s)
  {
    IncomparableExtend(s, d, s', d');
    AgreeNarrow(md, m, s, s');
    forall k | k in md && HasPrefix(k, s') && IsCountKey(k) ensures Countable(md[k]) {
      PrefixTransitive(k, s', s);
    }
    ProjectLocal(md, m, s', d', cb);
    ProjectWrites(m, s', d', cb);
    OverlayKeepsAgree(md, m, Project(m, s', d', cb).writes, s, d);
  }
}
