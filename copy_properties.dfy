/**
 * The guarantees of `copy_element` and its callbacks, stated about the
 * record `Copied(m, s, d, cb)` a copy leaves and the callback invocations it
 * makes: which value ends up at the destination, which language, how counted
 * elements are copied instance by instance, when the callback runs, and
 * which keys can change at all.
 */
module CopyProperties {
  import opened Paths
  import opened Projection
  import opened CopyLaws

  // ---------------------------------------------------------------------------
  // Reference definitions

  /**
   * The value a scalar copy of the present key `x` leaves at its destination:
   * the text of `x`, unless `x/@rdf:resource` is present, whose own value
   * then overrides it.
   */
  function Resolve(m: Record, x: string): Value
    requires x in m
    decreases Subtree(m, x)
  {
    if x + "/@rdf:resource" in m then
      ChildShrinks(m, x, "/@rdf:resource");
      Resolve(m, x + "/@rdf:resource")
    else
      m[x]
  }

  /**
   * The language a scalar copy of the present key `x` leaves at its
   * destination: that of its resource if the resource brings one, otherwise
   * `@xml:lang`, then `@lang`, then `language`; `None` when there is none.
   */
  function LanguageOf(m: Record, x: string): Option<Value>
    requires x in m
    decreases Subtree(m, x)
  {
    var own :=
      if x + "/@xml:lang" in m then Some(Resolve(m, x + "/@xml:lang"))
      else if x + "/@lang" in m then Some(Resolve(m, x + "/@lang"))
      else if x + "/language" in m then Some(Resolve(m, x + "/language"))
      else None;
    if x + "/@rdf:resource" in m then
      ChildShrinks(m, x, "/@rdf:resource");
      match LanguageOf(m, x + "/@rdf:resource")
      case Some(v) => Some(v)
      case None => own
    else
      own
  }

  /** The two records have the same entry, or no entry, at `k`. */
  predicate SameAt(a: Record, b: Record, k: string) {
    (k in a <==> k in b) && (k in a ==> a[k] == b[k])
  }

  /** The invocations of callback `cb` in `cs`, in order. */
  function Only(cs: seq<Invocation>, cb: Callback): seq<Invocation> {
    if cs == [] then []
    else (if cs[0].callback == cb then [cs[0]] else []) + Only(cs[1..], cb)
  }

  /** One invocation of `cb` per instance `0 .. n-1` of `s` and `d`, in increasing order. */
  function InstanceCalls(cb: Callback, s: string, d: string, n: nat): (r: seq<Invocation>)
    ensures |r| == n
    ensures forall i | 0 <= i < n :: r[i] == Invocation(cb, Indexed(s, i), Indexed(d, i))
  {
    if n == 0 then [] else InstanceCalls(cb, s, d, n - 1) + [Invocation(cb, Indexed(s, n - 1), Indexed(d, n - 1))]
  }

  // ---------------------------------------------------------------------------
  // Scalar copies

  /**
   * Callback placement: a scalar copy with a callback is the same copy
   * without it followed by one run of the callback on `(s, d)`; the copy
   * without it, with its language and resource sub-copies, calls nothing.
   */
  lemma ScalarSplit(m: Record, s: string, d: string, cb: Callback)
    requires s in m
    ensures Project(m, s, d, cb) == Project(m, s, d, NoCallback).Then(Invoke(m, cb, s, d))
    ensures Project(m, s, d, NoCallback).calls == []
  {
    var x := Effect(map[d := m[s]], [])
      .Then(Project(m, s + "/language", d + "/language", NoCallback))
      .Then(Project(m, s + "/@lang", d + "/language", NoCallback))
      .Then(Project(m, s + "/@xml:lang", d + "/language", NoCallback))
      .Then(Project(m, s + "/@rdf:resource", d, NoCallback));
    assert Project(m, s, d, cb) == ProjectScalar(m, s, d, cb) == x.Then(Invoke(m, cb, s, d));
    assert Project(m, s, d, NoCallback) == ProjectScalar(m, s, d, NoCallback) == x.Then(Nothing);
    assert x.Then(Nothing) == x by {
      assert x.writes + map[] == x.writes;
    }
    ProjectCalls(m, s, d, NoCallback);
  }

  /** A plain scalar copy leaves the resolved value of `s` at `d`. */
  lemma {:induction false} PlainValue(m: Record, s: string, d: string)
    requires s in m
    decreases Subtree(m, s)
    ensures d in Project(m, s, d, NoCallback).writes
    ensures Project(m, s, d, NoCallback).writes[d] == Resolve(m, s)
  {
    var r := s + "/@rdf:resource";
    ChildShrinks(m, s, "/@rdf:resource");
    LanguageCopiesMiss(m, s, d);
    ScalarParts(m, s, d);
    if r in m {
      PlainValue(m, r, d);
    } else {
      ProjectWrites(m, r, d, NoCallback);
      assert !HasPrefix(d, d + ".");
    }
  }

  /** The writes of a plain scalar copy: the value, three language copies, the resource copy. */
  lemma ScalarParts(m: Record, s: string, d: string)
    requires s in m
    ensures Project(m, s, d, NoCallback).writes ==
      map[d := m[s]]
        + Project(m, s + "/language", d + "/language", NoCallback).writes
        + Project(m, s + "/@lang", d + "/language", NoCallback).writes
        + Project(m, s + "/@xml:lang", d + "/language", NoCallback).writes
        + Project(m, s + "/@rdf:resource", d, NoCallback).writes
  {
    var w := map[d := m[s]]
        + Project(m, s + "/language", d + "/language", NoCallback).writes
        + Project(m, s + "/@lang", d + "/language", NoCallback).writes
        + Project(m, s + "/@xml:lang", d + "/language", NoCallback).writes
        + Project(m, s + "/@rdf:resource", d, NoCallback).writes;
    assert Project(m, s, d, NoCallback) == ProjectScalar(m, s, d, NoCallback);
    assert ProjectScalar(m, s, d, NoCallback).writes == w + map[];
    assert w + map[] == w;
  }

  /** The three language sub-copies of a scalar copy never write `d` itself. */
  lemma LanguageCopiesMiss(m: Record, s: string, d: string)
    ensures d !in Project(m, s + "/language", d + "/language", NoCallback).writes
    ensures d !in Project(m, s + "/@lang", d + "/language", NoCallback).writes
    ensures d !in Project(m, s + "/@xml:lang", d + "/language", NoCallback).writes
  {
    ShorterNotBelow(d + "/language", d);
    ProjectWrites(m, s + "/language", d + "/language", NoCallback);
    ProjectWrites(m, s + "/@lang", d + "/language", NoCallback);
    ProjectWrites(m, s + "/@xml:lang", d + "/language", NoCallback);
  }

  /**
   * One language sub-copy from `x` to `d/language`: if `x` is present it
   * writes the resolved value of `x` there, otherwise it does not touch it.
   */
  lemma LanguageCopy(m: Record, x: string, d: string)
    ensures var w := Project(m, x, d + "/language", NoCallback).writes;
      (d + "/language" in w <==> x in m) && (x in m ==> w[d + "/language"] == Resolve(m, x))
  {
    if x in m {
      PlainValue(m, x, d + "/language");
    } else {
      ProjectWrites(m, x, d + "/language", NoCallback);
      assert !HasPrefix(d + "/language", d + "/language" + ".");
    }
  }

  /** A plain scalar copy writes `d/language` exactly when `LanguageOf` finds one, with that value. */
  lemma {:induction false} PlainLanguage(m: Record, s: string, d: string)
    requires s in m
    decreases Subtree(m, s)
    ensures d + "/language" in Project(m, s, d, NoCallback).writes <==> LanguageOf(m, s).Some?
    ensures LanguageOf(m, s).Some? ==>
      Project(m, s, d, NoCallback).writes[d + "/language"] == LanguageOf(m, s).value
  {
    var r := s + "/@rdf:resource";
    ChildShrinks(m, s, "/@rdf:resource");
    LanguageCopy(m, s + "/language", d);
    LanguageCopy(m, s + "/@lang", d);
    LanguageCopy(m, s + "/@xml:lang", d);
    assert d != d + "/language";
    ScalarParts(m, s, d);
    if r in m {
      PlainLanguage(m, r, d);
    } else {
      ProjectWrites(m, r, d, NoCallback);
      PrefixCharAt(d + "/language", d + ".", |d|);
    }
  }

  /**
   * Plain copy with override: a present key copied with any callback but
   * `document_attrs` leaves its resolved value at `d`, which is its own
   * value unless `s/@rdf:resource` is present.
   */
  lemma ScalarTarget(m: Record, s: string, d: string, cb: Callback)
    requires s in m && cb != Document
    ensures d in Copied(m, s, d, cb)
    ensures Copied(m, s, d, cb)[d] == Resolve(m, s)
    ensures s + "/@rdf:resource" !in m ==> Copied(m, s, d, cb)[d] == m[s]
  {
    ScalarSplit(m, s, d, cb);
    PlainValue(m, s, d);
    InvokeWrites(m, cb, s, d);
  }

  /**
   * Language precedence: a present key copied with any callback but
   * `document_attrs` leaves at `d/language` the language `LanguageOf`
   * selects, and leaves `d/language` as it was when there is none.
   */
  lemma LanguageTarget(m: Record, s: string, d: string, cb: Callback)
    requires s in m && cb != Document
    ensures LanguageOf(m, s).Some? ==> d + "/language" in Copied(m, s, d, cb)
    ensures LanguageOf(m, s).Some? ==> Copied(m, s, d, cb)[d + "/language"] == LanguageOf(m, s).value
    ensures LanguageOf(m, s).None? ==> SameAt(m, Copied(m, s, d, cb), d + "/language")
  {
    ScalarSplit(m, s, d, cb);
    PlainLanguage(m, s, d);
    InvokeWrites(m, cb, s, d);
  }

  /**
   * Language precedence when the language variants are plain values: the
   * result is `@xml:lang` if present, else `@lang`, else `language`, else
   * `d/language` is left as it was.
   */
  lemma LanguagePrecedence(m: Record, s: string, d: string, cb: Callback)
    requires s in m && cb != Document
    requires s + "/@rdf:resource" !in m
    requires forall x | x in [s + "/@xml:lang", s + "/@lang", s + "/language"] && x in m :: x + "/@rdf:resource" !in m
    ensures var c := Copied(m, s, d, cb);
      if s + "/@xml:lang" in m then d + "/language" in c && c[d + "/language"] == m[s + "/@xml:lang"]
      else if s + "/@lang" in m then d + "/language" in c && c[d + "/language"] == m[s + "/@lang"]
      else if s + "/language" in m then d + "/language" in c && c[d + "/language"] == m[s + "/language"]
      else SameAt(m, c, d + "/language")
  {
    LanguageTarget(m, s, d, cb);
  }

  /**
   * Identifier override: `document_attrs` copies `s/dct:identifier` over
   * `d` itself, so a document copied with it ends up with the identifier's
   * resolved value at `d` when there is one, with its own otherwise.
   */
  lemma DocumentTarget(m: Record, s: string, d: string)
    requires s in m
    ensures d in Copied(m, s, d, Document)
    ensures Copied(m, s, d, Document)[d] ==
      if s + "/dct:identifier" in m then Resolve(m, s + "/dct:identifier") else Resolve(m, s)
  {
    ScalarSplit(m, s, d, Document);
    PlainValue(m, s, d);
    var id := s + "/dct:identifier";
    if id in m {
      PlainValue(m, id, d);
    } else {
      ProjectWrites(m, id, d, NoCallback);
      assert !HasPrefix(d, d + ".");
    }
    ShorterNotBelow(d + "/title", d);
    ShorterNotBelow(d + "/creator.0/name", d);
    ShorterNotBelow(d + "/creator", d);
    ShorterNotBelow(d + "/description", d);
    ProjectWrites(m, s + "/dct:title", d + "/title", NoCallback);
    ProjectWrites(m, s + "/dct:creator", d + "/creator.0/name", NoCallback);
    ProjectWrites(m, s + "/nrd:creator", d + "/creator", Person);
    ProjectWrites(m, s + "/dct:description", d + "/description", NoCallback);
  }

  /**
   * The language of a document copied with `document_attrs`: the identifier
   * copied over `d` brings its own language, which then overrides the
   * document's; without one, the document's language stays, and with
   * neither, `d/language` is left as it was.
   */
  lemma DocumentLanguage(m: Record, s: string, d: string)
    requires s in m
    ensures var c, id, k := Copied(m, s, d, Document), s + "/dct:identifier", d + "/language";
      if id in m && LanguageOf(m, id).Some? then k in c && c[k] == LanguageOf(m, id).value
      else if LanguageOf(m, s).Some? then k in c && c[k] == LanguageOf(m, s).value
      else SameAt(m, c, k)
  {
    var k := d + "/language";
    var id := s + "/dct:identifier";
    ScalarSplit(m, s, d, Document);
    PlainLanguage(m, s, d);
    if id in m {
      PlainLanguage(m, id, d);
    } else {
      ProjectWrites(m, id, d, NoCallback);
      PrefixCharAt(k, d + ".", |d|);
    }
    SiblingsApart(d, "/title", "/language", 1, k);
    SiblingsApart(d, "/creator.0/name", "/language", 1, k);
    SiblingsApart(d, "/creator", "/language", 1, k);
    SiblingsApart(d, "/description", "/language", 1, k);
    ProjectWrites(m, s + "/dct:title", d + "/title", NoCallback);
    ProjectWrites(m, s + "/dct:creator", d + "/creator.0/name", NoCallback);
    ProjectWrites(m, s + "/nrd:creator", d + "/creator", Person);
    ProjectWrites(m, s + "/dct:description", d + "/description", NoCallback);
  }

  // ---------------------------------------------------------------------------
  // Absent keys: no count, or a count and its instances

  /**
   * Zero/absent no-op: an absent key whose count is absent or falsy leaves
   * the record as it was and calls nothing.
   */
  lemma ZeroCountNoOp(m: Record, s: string, d: string, cb: Callback)
    requires s !in m && !Truthy(CountValue(m, s))
    ensures Copied(m, s, d, cb) == m
    ensures Project(m, s, d, cb).calls == []
  {
    assert Project(m, s, d, cb) == Nothing;
    assert m + map[] == m;
  }

  /**
   * A copy writes nothing exactly when the key is absent and its count is
   * absent or falsy: a present key writes `d`, a positive count `d.count`.
   */
  lemma CopyWritesIff(m: Record, s: string, d: string, cb: Callback)
    requires CountsAreNumbers(m, s)
    ensures Project(m, s, d, cb).writes == map[] <==> s !in m && !Truthy(CountValue(m, s))
  {
    CountKeyIsCountKey(s);
    if s in m {
      ScalarSplit(m, s, d, cb);
      PlainValue(m, s, d);
    } else if CountOf(m, s) != 0 {
      assert CountKey(d) in Project(m, s, d, cb).writes;
    }
  }

  /**
   * Count alignment: an absent key with a positive count copies the count
   * value itself to `d.count`, and apart from it writes only below the
   * instances `d.0 .. d.(N-1)`.
   */
  lemma CountAligned(m: Record, s: string, d: string, cb: Callback)
    requires s !in m && CountOf(m, s) > 0
    ensures CountKey(d) in Copied(m, s, d, cb)
    ensures Copied(m, s, d, cb)[CountKey(d)] == m[CountKey(s)] == Num(CountOf(m, s))
    ensures forall k | k in Project(m, s, d, cb).writes ::
      k == CountKey(d) || exists i | 0 <= i < CountOf(m, s) :: Below(Indexed(d, i), k)
  {
    UpToWrites(m, s, d, cb, CountOf(m, s));
    UpToCovers(m, s, d, cb, CountOf(m, s));
  }

  lemma {:induction false} UpToCovers(m: Record, s: string, d: string, cb: Callback, n: nat)
    requires CountKey(s) in m
    ensures forall k | k in ProjectUpTo(m, s, d, cb, n).writes :: exists i | 0 <= i < n :: Below(Indexed(d, i), k)
  {
    if n > 0 {
      UpToCovers(m, s, d, cb, n - 1);
      ProjectWrites(m, Indexed(s, n - 1), Indexed(d, n - 1), cb);
    }
  }

  /** Instances `n` and above are not touched by copying instances below `n`. */
  lemma {:induction false} UpToAvoids(m: Record, s: string, d: string, cb: Callback, n: nat, i: nat, k: string)
    requires CountKey(s) in m && n <= i && Below(Indexed(d, i), k)
    ensures k !in ProjectUpTo(m, s, d, cb, n).writes
  {
    if n > 0 {
      UpToAvoids(m, s, d, cb, n - 1, i, k);
      ProjectWrites(m, Indexed(s, n - 1), Indexed(d, n - 1), cb);
      IndexedApart(d, i, n - 1, k);
    }
  }

  /** Below instance `i < n`, copying instances `0 .. n-1` writes what copying instance `i` writes. */
  lemma {:induction false} UpToAt(m: Record, s: string, d: string, cb: Callback, n: nat, i: nat, k: string)
    requires CountKey(s) in m && i < n && Below(Indexed(d, i), k)
    ensures var w, wi := ProjectUpTo(m, s, d, cb, n).writes, Project(m, Indexed(s, i), Indexed(d, i), cb).writes;
      (k in w <==> k in wi) && (k in wi ==> w[k] == wi[k])
  {
    if i == n - 1 {
      UpToAvoids(m, s, d, cb, n - 1, i, k);
    } else {
      UpToAt(m, s, d, cb, n - 1, i, k);
      ProjectWrites(m, Indexed(s, n - 1), Indexed(d, n - 1), cb);
      IndexedApart(d, i, n - 1, k);
    }
  }

  /**
   * Index alignment: below instance `d.i`, `i < N`, the copy leaves exactly
   * what copying instance `s.i` to `d.i` with the same callback leaves.
   */
  lemma InstanceAligned(m: Record, s: string, d: string, cb: Callback, i: nat, k: string)
    requires s !in m && i < CountOf(m, s) && Below(Indexed(d, i), k)
    ensures SameAt(Copied(m, s, d, cb), Copied(m, Indexed(s, i), Indexed(d, i), cb), k)
  {
    CountKeyNotIndexed(d, i);
    UpToAt(m, s, d, cb, CountOf(m, s), i, k);
  }

  /** Index alignment for every instance and every key below it. */
  lemma InstancesAligned(m: Record, s: string, d: string, cb: Callback)
    requires s !in m
    ensures forall i: nat, k | i < CountOf(m, s) && Below(Indexed(d, i), k) ::
      SameAt(Copied(m, s, d, cb), Copied(m, Indexed(s, i), Indexed(d, i), cb), k)
  {
    forall i: nat, k | i < CountOf(m, s) && Below(Indexed(d, i), k)
      ensures SameAt(Copied(m, s, d, cb), Copied(m, Indexed(s, i), Indexed(d, i), cb), k)
    {
      InstanceAligned(m, s, d, cb, i, k);
    }
  }

  /**
   * An instance `s.i` that is neither a key nor counted itself is skipped:
   * nothing below `d.i` changes, even when keys below `s.i` exist.
   */
  lemma MissingInstanceSkipped(m: Record, s: string, d: string, cb: Callback, i: nat)
    requires s !in m && i < CountOf(m, s)
    requires Indexed(s, i) !in m && !Truthy(CountValue(m, Indexed(s, i)))
    ensures forall k | Below(Indexed(d, i), k) :: SameAt(m, Copied(m, s, d, cb), k)
  {
    ZeroCountNoOp(m, Indexed(s, i), Indexed(d, i), cb);
    forall k | Below(Indexed(d, i), k) ensures SameAt(m, Copied(m, s, d, cb), k) {
      InstanceAligned(m, s, d, cb, i, k);
    }
  }

  // ---------------------------------------------------------------------------
  // Callback invocations

  lemma {:induction false} OnlyConcat(a: seq<Invocation>, b: seq<Invocation>, cb: Callback)
    ensures Only(a + b, cb) == Only(a, cb) + Only(b, cb)
  {
    if a != [] {
      assert (a + b)[1..] == a[1..] + b;
      OnlyConcat(a[1..], b, cb);
    } else {
      assert a + b == b;
    }
  }

  lemma {:induction false} OnlyNone(cs: seq<Invocation>, cb: Callback)
    requires forall c | c in cs :: c.callback != cb
    ensures Only(cs, cb) == []
  {
    if cs != [] {
      assert cs[0] in cs;
      assert forall c | c in cs[1..] :: c in cs;
      OnlyNone(cs[1..], cb);
    }
  }

  /**
   * Callback placement for a present key: without a callback nothing is
   * called; with one, the first invocation is the callback on `(s, d)` and
   * it is the only invocation of that callback.
   */
  lemma CallbackOnce(m: Record, s: string, d: string, cb: Callback)
    requires s in m
    ensures cb == NoCallback ==> Project(m, s, d, cb).calls == []
    ensures cb != NoCallback ==> |Project(m, s, d, cb).calls| > 0 && Project(m, s, d, cb).calls[0] == Invocation(cb, s, d)
    ensures cb != NoCallback ==> Only(Project(m, s, d, cb).calls, cb) == [Invocation(cb, s, d)]
  {
    ScalarSplit(m, s, d, cb);
    InvokeCalls(m, cb, s, d);
    var cs := Project(m, s, d, cb).calls;
    assert cs == Invoke(m, cb, s, d).calls;
    if cb != NoCallback {
      OnlyNone(cs[1..], cb);
    }
  }

  /**
   * Callback placement for a counted key whose instances are all present:
   * the callback runs once per instance, in increasing index order.
   */
  lemma CallbackPerInstance(m: Record, s: string, d: string, cb: Callback)
    requires cb != NoCallback && s !in m
    requires forall i | 0 <= i < CountOf(m, s) :: Indexed(s, i) in m
    ensures Only(Project(m, s, d, cb).calls, cb) == InstanceCalls(cb, s, d, CountOf(m, s))
  {
    if CountOf(m, s) > 0 {
      UpToOnly(m, s, d, cb, CountOf(m, s));
      var up := ProjectUpTo(m, s, d, cb, CountOf(m, s)).calls;
      assert Project(m, s, d, cb).calls == [] + up == up;
    } else {
      assert Project(m, s, d, cb) == Nothing;
    }
  }

  lemma {:induction false} UpToOnly(m: Record, s: string, d: string, cb: Callback, n: nat)
    requires cb != NoCallback && CountKey(s) in m
    requires forall i | 0 <= i < n :: Indexed(s, i) in m
    ensures Only(ProjectUpTo(m, s, d, cb, n).calls, cb) == InstanceCalls(cb, s, d, n)
  {
    if n > 0 {
      UpToOnly(m, s, d, cb, n - 1);
      CallbackOnce(m, Indexed(s, n - 1), Indexed(d, n - 1), cb);
      OnlyConcat(ProjectUpTo(m, s, d, cb, n - 1).calls, Project(m, Indexed(s, n - 1), Indexed(d, n - 1), cb).calls, cb);
    }
  }

  // ---------------------------------------------------------------------------
  // Frame

  /**
   * Frame condition: every key a copy writes lies at or below `d`, so has
   * `d` as a string prefix, and every key elsewhere keeps its entry.
   */
  lemma CopyFrame(m: Record, s: string, d: string, cb: Callback)
    ensures forall k | k in Project(m, s, d, cb).writes :: Below(d, k) && HasPrefix(k, d)
    ensures forall k | !Below(d, k) :: SameAt(m, Copied(m, s, d, cb), k)
  {
    ProjectWrites(m, s, d, cb);
    forall k | k in Project(m, s, d, cb).writes ensures HasPrefix(k, d) {
      BelowHasPrefix(d, k);
    }
  }

  /** When the two trees are disjoint, the whole source subtree keeps its entries. */
  lemma SourceUntouched(m: Record, s: string, d: string, cb: Callback)
    requires Incomparable(s, d)
    ensures forall k | HasPrefix(k, s) :: SameAt(m, Copied(m, s, d, cb), k)
  {
    ProjectWrites(m, s, d, cb);
    OverlayKeepsAgree(m, m, Project(m, s, d, cb).writes, s, d);
  }

  /** Copying a second time changes nothing more. */
  lemma CopyIdempotent(m: Record, s: string, d: string, cb: Callback)
    requires Incomparable(s, d)
    ensures Copied(Copied(m, s, d, cb), s, d, cb) == Copied(m, s, d, cb)
  {
    var w := Project(m, s, d, cb).writes;
    ProjectWrites(m, s, d, cb);
    OverlayKeepsAgree(m, m, w, s, d);
    ProjectLocal(m + w, m, s, d, cb);
    assert (m + w) + w == m + w;
  }

  /** `person_attrs` writes only below `d/name`, `d/email` and `d/phone`. */
  lemma PersonFrame(m: Record, s: string, d: string)
    ensures forall k | k in PersonAttrs(m, s, d).writes ::
      Below(d + "/name", k) || Below(d + "/email", k) || Below(d + "/phone", k)
  {
    ProjectWrites(m, s + "/foaf:name", d + "/name", NoCallback);
    ProjectWrites(m, s + "/foaf:mbox", d + "/email", NoCallback);
    ProjectWrites(m, s + "/foaf:phone", d + "/phone", NoCallback);
  }

  /**
   * `document_attrs` writes only what a plain copy to `d` itself can write
   * (the identifier), and below `d/title`, `d/creator.0/name`, `d/creator`
   * and `d/description`.
   */
  lemma DocumentFrame(m: Record, s: string, d: string)
    ensures forall k | k in DocumentAttrs(m, s, d).writes ::
      Plain(d, k) || Below(d + "/title", k) || Below(d + "/creator.0/name", k) ||
      Below(d + "/creator", k) || Below(d + "/description", k)
  {
    ProjectWrites(m, s + "/dct:title", d + "/title", NoCallback);
    ProjectPlain(m, s + "/dct:identifier", d);
    ProjectWrites(m, s + "/dct:creator", d + "/creator.0/name", NoCallback);
    ProjectWrites(m, s + "/nrd:creator", d + "/creator", Person);
    ProjectWrites(m, s + "/dct:description", d + "/description", NoCallback);
  }

  /** `funding_attrs` writes only below `d/fundingNumber` and `d/funder`. */
  lemma FundingFrame(m: Record, s: string, d: string)
    ensures forall k | k in FundingAttrs(m, s, d).writes :: Below(d + "/fundingNumber", k) || Below(d + "/funder", k)
  {
    ProjectWrites(m, s + "/rev:arpfo:funds.0/arpfo:grantNumber", d + "/fundingNumber", NoCallback);
    ProjectWrites(m, s + "/rev:arpfo:funds.0/rev:arpfo:provides", d + "/funder", Person);
  }

  /** `file_attrs` writes only below `d/mimetype`, `d/checksum.0`, `d/checksum.0/algorithm` and `d/size`. */
  lemma FileFrame(m: Record, s: string, d: string)
    ensures forall k | k in FileAttrs(m, s, d).writes ::
      Below(d + "/mimetype", k) || Below(d + "/checksum.0", k) ||
      Below(d + "/checksum.0/algorithm", k) || Below(d + "/size", k)
  {
    ProjectWrites(m, s + "/dcat:mediaType", d + "/mimetype", NoCallback);
    ProjectWrites(m, s + "/fp:checksum.0/fp:checksumValue.0", d + "/checksum.0", NoCallback);
    ProjectWrites(m, s + "/fp:checksum.0/fp:generator.0", d + "/checksum.0/algorithm", NoCallback);
    ProjectWrites(m, s + "/dcat:byteSize", d + "/size", NoCallback);
  }

  // ---------------------------------------------------------------------------
  // Creators of a document

  /** The first instance key of `p`. */
  lemma FirstInstance(p: string)
    ensures Indexed(p, 0) == p + ".0"
  {
    assert NatToString(0) == "0";
  }

  /** `person_attrs` on `(x, y)` writes the resolved `x/foaf:name` at `y/name`. */
  lemma PersonName(m: Record, x: string, y: string)
    requires x + "/foaf:name" in m
    ensures y + "/name" in PersonAttrs(m, x, y).writes
    ensures PersonAttrs(m, x, y).writes[y + "/name"] == Resolve(m, x + "/foaf:name")
  {
    var k := y + "/name";
    PlainValue(m, x + "/foaf:name", k);
    ProjectWrites(m, x + "/foaf:mbox", y + "/email", NoCallback);
    ProjectWrites(m, x + "/foaf:phone", y + "/phone", NoCallback);
    SiblingsApart(y, "/email", "/name", 1, k);
    SiblingsApart(y, "/phone", "/name", 1, k);
  }

  /**
   * A repeated person element `c` copied with `person_attrs` to `dc` writes
   * the resolved name of its first instance at `dc.0/name`.
   */
  lemma FirstPersonName(m: Record, c: string, dc: string)
    requires c !in m && CountOf(m, c) > 0
    requires Indexed(c, 0) in m && Indexed(c, 0) + "/foaf:name" in m
    ensures Indexed(dc, 0) + "/name" in Project(m, c, dc, Person).writes
    ensures Project(m, c, dc, Person).writes[Indexed(dc, 0) + "/name"] == Resolve(m, Indexed(c, 0) + "/foaf:name")
  {
    var k := Indexed(dc, 0) + "/name";
    PrefixOfConcat(Indexed(dc, 0) + "/", "name");
    assert Below(Indexed(dc, 0), k);
    UpToAt(m, c, dc, Person, CountOf(m, c), 0, k);
    ScalarSplit(m, Indexed(c, 0), Indexed(dc, 0), Person);
    PersonName(m, Indexed(c, 0), Indexed(dc, 0));
  }

  /**
   * Creator override: when `s/nrd:creator` is a repeated element whose first
   * instance is present with a `foaf:name`, `document_attrs` leaves that
   * name at `d/creator.0/name`, over any `dct:creator` copied there before.
   */
  lemma CreatorOverride(m: Record, s: string, d: string)
    requires s + "/nrd:creator" !in m && CountOf(m, s + "/nrd:creator") > 0
    requires s + "/nrd:creator.0" in m && s + "/nrd:creator.0/foaf:name" in m
    ensures d + "/creator.0/name" in DocumentAttrs(m, s, d).writes
    ensures DocumentAttrs(m, s, d).writes[d + "/creator.0/name"] == Resolve(m, s + "/nrd:creator.0/foaf:name")
  {
    var k := d + "/creator.0/name";
    FirstInstance(s + "/nrd:creator");
    FirstInstance(d + "/creator");
    assert s + "/nrd:creator" + ".0" == s + "/nrd:creator.0";
    assert s + "/nrd:creator.0" + "/foaf:name" == s + "/nrd:creator.0/foaf:name";
    assert d + "/creator" + ".0" + "/name" == k;
    FirstPersonName(m, s + "/nrd:creator", d + "/creator");
    ProjectWrites(m, s + "/dct:description", d + "/description", NoCallback);
    SiblingsApart(d, "/description", "/creator.0/name", 1, k);
  }

  /**
   * Creator fallback: when `s/nrd:creator` is neither present nor counted,
   * `document_attrs` leaves the resolved `dct:creator` at
   * `d/creator.0/name`, and it never writes `d/creator.count`.
   */
  lemma CreatorFallback(m: Record, s: string, d: string)
    requires s + "/dct:creator" in m
    requires s + "/nrd:creator" !in m && !Truthy(CountValue(m, s + "/nrd:creator"))
    ensures d + "/creator.0/name" in DocumentAttrs(m, s, d).writes
    ensures DocumentAttrs(m, s, d).writes[d + "/creator.0/name"] == Resolve(m, s + "/dct:creator")
    ensures CountKey(d + "/creator") !in DocumentAttrs(m, s, d).writes
  {
    var k := d + "/creator.0/name";
    ZeroCountNoOp(m, s + "/nrd:creator", d + "/creator", Person);
    PlainValue(m, s + "/dct:creator", k);
    ProjectWrites(m, s + "/dct:description", d + "/description", NoCallback);
    SiblingsApart(d, "/description", "/creator.0/name", 1, k);
    CreatorCountUntouched(m, s, d);
  }

  /** Apart from the `nrd:creator` copy, `document_attrs` never writes `d/creator.count`. */
  lemma CreatorCountUntouched(m: Record, s: string, d: string)
    ensures var c := CountKey(d + "/creator");
      c !in Project(m, s + "/dct:title", d + "/title", NoCallback).writes &&
      c !in Project(m, s + "/dct:identifier", d, NoCallback).writes &&
      c !in Project(m, s + "/dct:creator", d + "/creator.0/name", NoCallback).writes &&
      c !in Project(m, s + "/dct:description", d + "/description", NoCallback).writes
  {
    var c := CountKey(d + "/creator");
    var k := d + "/creator.0/name";
    assert c == d + "/creator.count";
    assert Below(d + "/creator.count", c);
    ProjectWrites(m, s + "/dct:title", d + "/title", NoCallback);
    SiblingsApart(d, "/title", "/creator.count", 1, c);
    ProjectPlain(m, s + "/dct:identifier", d);
    SiblingsApart(d, "/language", "/creator.count", 1, c);
    PrefixCharAt(c, d + ".", |d|);
    ProjectPlain(m, s + "/dct:creator", k);
    ShorterNotBelow(k + "/language", c);
    ProjectWrites(m, s + "/dct:description", d + "/description", NoCallback);
    SiblingsApart(d, "/description", "/creator.count", 1, c);
  }
}
