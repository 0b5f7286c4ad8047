/**
 * The in-place algorithm: `copy_element` and the callbacks the NRD reader
 * passes to it, updating one metadata dictionary step by step.  Each method
 * is proved to leave the dictionary as the pure projection of module
 * Projection says, so every law of module CopyLaws holds of it.
 */
module Copier {
  import opened Paths
  import opened Projection
  import opened CopyLaws

  /**
   * The metadata dictionary `md` the copies update.  `calls` records, for the
   * proof only, every callback invocation made so far.
   */
  class MetadataDict {
    var md: Record
    ghost var calls: seq<Invocation>

    constructor(m: Record)
      ensures md == m && calls == []
    {
      md := m;
      calls := [];
    }

    /**
     * `copy_element(source, dest, md, callback)`.  `source` and `dest` must
     * not be prefixes of each other (otherwise the Python recursion need not
     * end), and every count below `source` must be a number or falsy.
     */
    method CopyElement(source: string, dest: string, callback: Callback)
      requires Incomparable(source, dest)
      requires CountsAreNumbers(md, source)
      modifies this
      decreases Rank(callback), Subtree(md, source), 5
      ensures md == Copied(old(md), source, dest, callback)
      ensures calls == old(calls) + Project(old(md), source, dest, callback).calls
    {
      if source in md {
        CopyValue(source, dest, callback);
        return;
      }
      var count := CountValue(md, source);
      CountKeyIsCountKey(source);
      if !Truthy(count) {
        assert md + map[] == md;
        return;
      }
      CopyInstances(source, dest, callback, count.number);
    }

    /**
     * The branch of `copy_element` for an absent key with a positive count:
     * the count, then every instance in ascending order.
     */
    method CopyInstances(source: string, dest: string, callback: Callback, count: nat)
      requires Incomparable(source, dest)
      requires CountsAreNumbers(md, source)
      requires source !in md && CountKey(source) in md && md[CountKey(source)] == Num(count) && count > 0
      modifies this
      decreases Rank(callback), Subtree(md, source), 4
      ensures md == old(md) + Project(old(md), source, dest, callback).writes
      ensures calls == old(calls) + Project(old(md), source, dest, callback).calls
    {
      ghost var m, c0 := md, calls;
      CountKeyIsCountKey(dest);
      md := md[CountKey(dest) := Num(count)];
      ghost var e0 := Effect(map[CountKey(dest) := Num(count)], []);
      assert md == m + e0.writes && AgreeFrom(md, m, source) by {
        OverlayKeepsAgree(m, m, e0.writes, source, dest);
      }
      assert md + Nothing.writes == md by { assert md + map[] == md; }
      var i := 0;
      while i < count
        invariant 0 <= i <= count
        invariant md == (m + e0.writes) + ProjectUpTo(m, source, dest, callback, i).writes
        invariant calls == c0 + ProjectUpTo(m, source, dest, callback, i).calls
        invariant AgreeFrom(md, m, source)
      {
        CopyInstance(m, m + e0.writes, c0, source, dest, callback, i);
        i := i + 1;
      }
      ApplyThen(m, c0, e0, ProjectUpTo(m, source, dest, callback, i));
    }

    /**
     * One round of the loop over instances: `copy_element` from instance `i`
     * of `source` to instance `i` of `dest`, after instances `0 .. i-1`.
     */
    method CopyInstance(ghost m: Record, ghost base: Record, ghost c0: seq<Invocation>,
                        source: string, dest: string, callback: Callback, i: nat)
      requires AgreeFrom(md, m, source) && Incomparable(source, dest) && CountsAreNumbers(m, source)
      requires CountKey(source) in m
      requires md == base + ProjectUpTo(m, source, dest, callback, i).writes
      requires calls == c0 + ProjectUpTo(m, source, dest, callback, i).calls
      modifies this
      decreases Rank(callback), Subtree(m, source), 3
      ensures md == base + ProjectUpTo(m, source, dest, callback, i + 1).writes
      ensures calls == c0 + ProjectUpTo(m, source, dest, callback, i + 1).calls
      ensures AgreeFrom(md, m, source)
    {
      IndexShrinks(m, source, i);
      IndexedHasPrefix(source, i);
      IndexedHasPrefix(dest, i);
      IndexedBelow(dest, i);
      Step(m, source, dest, base, c0, ProjectUpTo(m, source, dest, callback, i),
        Indexed(source, i), Indexed(dest, i), callback);
    }

    /**
     * The branch of `copy_element` for a key present in `md`: the value and
     * its language in three spellings, later ones winning; then `CopyTail`.
     */
    method CopyValue(source: string, dest: string, callback: Callback)
      requires Incomparable(source, dest)
      requires CountsAreNumbers(md, source)
      requires source in md
      modifies this
      decreases Rank(callback), Subtree(md, source), 4
      ensures md == old(md) + ProjectScalar(old(md), source, dest, callback).writes
      ensures calls == old(calls) + ProjectScalar(old(md), source, dest, callback).calls
    {
      ghost var m, c0 := md, calls;
      md := md[dest := md[source]];
      ghost var e := Effect(map[dest := m[source]], []);
      assert md == m + e.writes && calls == c0 + e.calls;
      OverlayKeepsAgree(m, m, e.writes, source, dest);
      PrefixOfConcat(dest, "/language");
      ChildBelow(dest, "/language");

      ChildShrinks(m, source, "/language");
      PrefixOfConcat(source, "/language");
      Step(m, source, dest, m, c0, e, source + "/language", dest + "/language", NoCallback);
      e := e.Then(Project(m, source + "/language", dest + "/language", NoCallback));

      ChildShrinks(m, source, "/@lang");
      PrefixOfConcat(source, "/@lang");
      Step(m, source, dest, m, c0, e, source + "/@lang", dest + "/language", NoCallback);
      e := e.Then(Project(m, source + "/@lang", dest + "/language", NoCallback));

      ChildShrinks(m, source, "/@xml:lang");
      PrefixOfConcat(source, "/@xml:lang");
      Step(m, source, dest, m, c0, e, source + "/@xml:lang", dest + "/language", NoCallback);
      e := e.Then(Project(m, source + "/@xml:lang", dest + "/language", NoCallback));

      CopyTail(m, c0, e, source, dest, callback);
    }

    /**
     * The rest of the branch for a present key, after the effect `e` of the
     * value and its language: the `@rdf:resource` copy, which overwrites the
     * value, then the callback.
     */
    method CopyTail(ghost m: Record, ghost c0: seq<Invocation>, ghost e: Effect,
                    source: string, dest: string, callback: Callback)
      requires AgreeFrom(md, m, source) && Incomparable(source, dest) && CountsAreNumbers(m, source)
      requires source in m && md == m + e.writes && calls == c0 + e.calls
      modifies this
      decreases Rank(callback), Subtree(m, source), 3
      ensures md == m + e.Then(Project(m, source + "/@rdf:resource", dest, NoCallback))
                         .Then(Invoke(m, callback, source, dest)).writes
      ensures calls == c0 + e.Then(Project(m, source + "/@rdf:resource", dest, NoCallback))
                             .Then(Invoke(m, callback, source, dest)).calls
    {
      ChildShrinks(m, source, "/@rdf:resource");
      PrefixOfConcat(source, "/@rdf:resource");
      assert HasPrefix(dest, dest);
      Step(m, source, dest, m, c0, e, source + "/@rdf:resource", dest, NoCallback);
      ghost var e' := e.Then(Project(m, source + "/@rdf:resource", dest, NoCallback));

      ghost var p := Invoke(m, callback, source, dest);
      CountsKept(md, m, source);
      InvokeLocal(md, m, callback, source, dest);
      if callback != NoCallback {
        Call(callback, source, dest);
      } else {
        assert md + p.writes == md && calls + p.calls == calls by {
          assert p == Nothing;
          assert md + map[] == md;
        }
      }
      ApplyThen(m, c0, e', p);
    }

    /**
     * One nested `copy_element(s, d, md, cb)` made while a copy from `source`
     * to `dest` that started on `m` is in progress, after the effect `e` has
     * been applied to `base`: it projects as it would on `m`, its effect
     * follows `e`, and it leaves the subtree of `source` as `m` has it.
     */
    method Step(ghost m: Record, ghost source: string, ghost dest: string,
                ghost base: Record, ghost c0: seq<Invocation>, ghost e: Effect,
                s: string, d: string, cb: Callback)
      requires AgreeFrom(md, m, source) && Incomparable(source, dest) && CountsAreNumbers(m, source)
      requires HasPrefix(s, source) && HasPrefix(d, dest)
      requires forall k :: Below(d, k) ==> Below(dest, k)
      requires md == base + e.writes && calls == c0 + e.calls
      modifies this
      decreases Rank(cb), Subtree(m, s), 6
      ensures md == base + e.Then(Project(m, s, d, cb)).writes
      ensures calls == c0 + e.Then(Project(m, s, d, cb)).calls
      ensures AgreeFrom(md, m, source)
    {
      SubCopy(md, m, source, dest, s, d, cb);
      CopyElement(s, d, cb);
      ApplyThen(base, c0, e, Project(m, s, d, cb));
    }

    /** `callback(source, dest, md)`: runs the callback `cb` names. */
    method Call(cb: Callback, source: string, dest: string)
      requires Incomparable(source, dest)
      requires CountsAreNumbers(md, source)
      modifies this
      decreases Rank(cb), Subtree(md, source), 2
      ensures md == old(md) + Invoke(old(md), cb, source, dest).writes
      ensures calls == old(calls) + Invoke(old(md), cb, source, dest).calls
    {
      match cb {
        case NoCallback =>
        case Person => PersonAttrs(source, dest);
        case Document => DocumentAttrs(source, dest);
        case Funding => FundingAttrs(source, dest);
        case File => FileAttrs(source, dest);
      }
    }

    /** `person_attrs`: name, email and phone of the person at `source`. */
    method PersonAttrs(source: string, dest: string)
      requires Incomparable(source, dest)
      requires CountsAreNumbers(md, source)
      modifies this
      decreases Rank(Person), Subtree(md, source), 1
      ensures md == old(md) + Projection.PersonAttrs(old(md), source, dest).writes
      ensures calls == old(calls) + Projection.PersonAttrs(old(md), source, dest).calls
    {
      ghost var m, c0 := md, calls;
      calls := calls + [Invocation(Person, source, dest)];
      ghost var e := Effect(map[], [Invocation(Person, source, dest)]);
      assert md == m + e.writes && calls == c0 + e.calls;

      PrefixOfConcat(source, "/foaf:name");
      PrefixOfConcat(dest, "/name");
      ChildBelow(dest, "/name");
      Step(m, source, dest, m, c0, e, source + "/foaf:name", dest + "/name", NoCallback);
      e := e.Then(Project(m, source + "/foaf:name", dest + "/name", NoCallback));

      PrefixOfConcat(source, "/foaf:mbox");
      PrefixOfConcat(dest, "/email");
      ChildBelow(dest, "/email");
      Step(m, source, dest, m, c0, e, source + "/foaf:mbox", dest + "/email", NoCallback);
      e := e.Then(Project(m, source + "/foaf:mbox", dest + "/email", NoCallback));

      PrefixOfConcat(source, "/foaf:phone");
      PrefixOfConcat(dest, "/phone");
      ChildBelow(dest, "/phone");
      Step(m, source, dest, m, c0, e, source + "/foaf:phone", dest + "/phone", NoCallback);
      e := e.Then(Project(m, source + "/foaf:phone", dest + "/phone", NoCallback));
    }

    /** `document_attrs`: title, identifier, creators and description of a document. */
    method DocumentAttrs(source: string, dest: string)
      requires Incomparable(source, dest)
      requires CountsAreNumbers(md, source)
      modifies this
      decreases Rank(Document), Subtree(md, source), 1
      ensures md == old(md) + Projection.DocumentAttrs(old(md), source, dest).writes
      ensures calls == old(calls) + Projection.DocumentAttrs(old(md), source, dest).calls
    {
      ghost var m, c0 := md, calls;
      calls := calls + [Invocation(Document, source, dest)];
      ghost var e := Effect(map[], [Invocation(Document, source, dest)]);
      assert md == m + e.writes && calls == c0 + e.calls;

      PrefixOfConcat(source, "/dct:title");
      PrefixOfConcat(dest, "/title");
      ChildBelow(dest, "/title");
      Step(m, source, dest, m, c0, e, source + "/dct:title", dest + "/title", NoCallback);
      e := e.Then(Project(m, source + "/dct:title", dest + "/title", NoCallback));

      PrefixOfConcat(source, "/dct:identifier");
      assert HasPrefix(dest, dest);
      Step(m, source, dest, m, c0, e, source + "/dct:identifier", dest, NoCallback);
      e := e.Then(Project(m, source + "/dct:identifier", dest, NoCallback));

      PrefixOfConcat(source, "/dct:creator");
      PrefixOfConcat(dest, "/creator.0/name");
      ChildBelow(dest, "/creator.0/name");
      Step(m, source, dest, m, c0, e, source + "/dct:creator", dest + "/creator.0/name", NoCallback);
      e := e.Then(Project(m, source + "/dct:creator", dest + "/creator.0/name", NoCallback));

      PrefixOfConcat(source, "/nrd:creator");
      PrefixOfConcat(dest, "/creator");
      ChildBelow(dest, "/creator");
      Step(m, source, dest, m, c0, e, source + "/nrd:creator", dest + "/creator", Person);
      e := e.Then(Project(m, source + "/nrd:creator", dest + "/creator", Person));

      PrefixOfConcat(source, "/dct:description");
      PrefixOfConcat(dest, "/description");
      ChildBelow(dest, "/description");
      Step(m, source, dest, m, c0, e, source + "/dct:description", dest + "/description", NoCallback);
      e := e.Then(Project(m, source + "/dct:description", dest + "/description", NoCallback));
    }

    /** `funding_attrs`: grant number and funder of the project at `source`. */
    method FundingAttrs(source: string, dest: string)
      requires Incomparable(source, dest)
      requires CountsAreNumbers(md, source)
      modifies this
      decreases Rank(Funding), Subtree(md, source), 1
      ensures md == old(md) + Projection.FundingAttrs(old(md), source, dest).writes
      ensures calls == old(calls) + Projection.FundingAttrs(old(md), source, dest).calls
    {
      ghost var m, c0 := md, calls;
      calls := calls + [Invocation(Funding, source, dest)];
      ghost var e := Effect(map[], [Invocation(Funding, source, dest)]);
      assert md == m + e.writes && calls == c0 + e.calls;

      var grant := source + "/rev:arpfo:funds.0/arpfo:grantNumber";
      PrefixOfConcat(source, "/rev:arpfo:funds.0/arpfo:grantNumber");
      PrefixOfConcat(dest, "/fundingNumber");
      ChildBelow(dest, "/fundingNumber");
      Step(m, source, dest, m, c0, e, grant, dest + "/fundingNumber", NoCallback);
      e := e.Then(Project(m, grant, dest + "/fundingNumber", NoCallback));

      var funder := source + "/rev:arpfo:funds.0/rev:arpfo:provides";
      PrefixOfConcat(source, "/rev:arpfo:funds.0/rev:arpfo:provides");
      PrefixOfConcat(dest, "/funder");
      ChildBelow(dest, "/funder");
      Step(m, source, dest, m, c0, e, funder, dest + "/funder", Person);
      e := e.Then(Project(m, funder, dest + "/funder", Person));
    }

    /** `file_attrs`: media type, checksum with its algorithm, and size of a file. */
    method FileAttrs(source: string, dest: string)
      requires Incomparable(source, dest)
      requires CountsAreNumbers(md, source)
      modifies this
      decreases Rank(File), Subtree(md, source), 1
      ensures md == old(md) + Projection.FileAttrs(old(md), source, dest).writes
      ensures calls == old(calls) + Projection.FileAttrs(old(md), source, dest).calls
    {
      ghost var m, c0 := md, calls;
      calls := calls + [Invocation(File, source, dest)];
      ghost var e := Effect(map[], [Invocation(File, source, dest)]);
      assert md == m + e.writes && calls == c0 + e.calls;

      PrefixOfConcat(source, "/dcat:mediaType");
      PrefixOfConcat(dest, "/mimetype");
      ChildBelow(dest, "/mimetype");
      Step(m, source, dest, m, c0, e, source + "/dcat:mediaType", dest + "/mimetype", NoCallback);
      e := e.Then(Project(m, source + "/dcat:mediaType", dest + "/mimetype", NoCallback));

      var value := source + "/fp:checksum.0/fp:checksumValue.0";
      PrefixOfConcat(source, "/fp:checksum.0/fp:checksumValue.0");
      PrefixOfConcat(dest, "/checksum.0");
      ChildBelow(dest, "/checksum.0");
      Step(m, source, dest, m, c0, e, value, dest + "/checksum.0", NoCallback);
      e := e.Then(Project(m, value, dest + "/checksum.0", NoCallback));

      var generator := source + "/fp:checksum.0/fp:generator.0";
      PrefixOfConcat(source, "/fp:checksum.0/fp:generator.0");
      PrefixOfConcat(dest, "/checksum.0/algorithm");
      ChildBelow(dest, "/checksum.0/algorithm");
      Step(m, source, dest, m, c0, e, generator, dest + "/checksum.0/algorithm", NoCallback);
      e := e.Then(Project(m, generator, dest + "/checksum.0/algorithm", NoCallback));

      PrefixOfConcat(source, "/dcat:byteSize");
      PrefixOfConcat(dest, "/size");
      ChildBelow(dest, "/size");
      Step(m, source, dest, m, c0, e, source + "/dcat:byteSize", dest + "/size", NoCallback);
      e := e.Then(Project(m, source + "/dcat:byteSize", dest + "/size", NoCallback));
    }
  }
}
