# NRD metadata projection

This project is a Dafny model of the path-projection engine that the OAI-PMH
harvester uses to read metadata in the NRD schema
(`ckanext/oaipmh/importformats.py`), together with proofs about it. The NRD
reader first flattens the RDF document into a dictionary from path keys to
values:

- `/` separates the segments of a path;
- `key.N` is the N-th instance of a repeated element;
- `key.count` is the number of instances;
- `key/language`, `key/@lang`, `key/@xml:lang` and `key/@rdf:resource` are
  the language and resource annotations of an element.

`copy_element` then copies one subtree of that dictionary to another key in
place. It follows counts and annotations. It can run a callback on each scalar
copy of the element and of its instances, but never on the language and
resource sub-copies. `nrd_metadata_reader` applies a fixed table of 23 such copies and
finishes with a best-effort interpretation of the `rights` element.

The model is split into six modules:

- **Paths** (`paths.dfy`): key construction (`'%s.%d'`, `.count`) and prefix
  facts.
- **Projection** (`projection.dfy`): the record and callback types, and the
  pure reference function `Project(m, s, d, cb)`. It gives the keys one call
  of `copy_element(s, d, m, cb)` writes, with their final values, and the
  callback invocations it makes. Both are computed on the record as it was
  before the call. `Copied(m, s, d, cb)` is `m` overlaid with those writes.
- **Copier** (`copier.dfy`): the class `MetadataDict`, which holds the
  dictionary in the field `md`. `copy_element`, `person_attrs` and the three
  callback closures are its methods; they update `md` in place, one write at
  a time, exactly as the source does. Every method is proved to leave
  `md == old(md) + Project(old(md), …).writes`. A ghost field `calls` records
  every callback invocation in order, and is proved equal to
  `old(calls) + Project(old(md), …).calls`.
- **CopyLaws** (`copy_laws.dfy`) and **CopyProperties**
  (`copy_properties.dfy`): what `Project` guarantees. This covers:
  - which value reaches the destination, and how the resource overrides it;
  - which language reaches the destination, and the precedence among the
    three spellings;
  - the no-op on a zero or absent count;
  - the alignment of counts and instances;
  - where and how often callbacks run;
  - which keys a copy can write;
  - the ordering of the creator writes in `document_attrs`.
- **NrdReader** (`nrd_reader.dfy`): the rule table, the loop over it, the
  rights step, and `ReadNrd`, which composes them.

If the source and destination trees overlapped, a recursive copy would read
keys it had itself written. The model therefore carries two preconditions that
the source leaves implicit:

- The source and destination paths are incomparable: neither is a string
  prefix of the other. Every rule of the table meets this (`RulesWellFormed`).
  Each copy then only reads keys that start with the source string, and only
  writes keys below its destination (`ProjectLocal`, `CopyFrame`). As a result, the step-by-step
  update equals the one-shot `Project`, and the whole reader equals overlaying
  each rule's projection of the input (`ReadNrd`).
- Every `.count` value is a number, `None` or the empty string.

## Model

| member | source | states |
|---|---|---|
| Paths.NatToString | ckanext/oaipmh/importformats.py:76-77 | `'%d'` of a natural number: a non-empty string of decimal digits, a single digit exactly when the number is below 10; `NatToStringInjective` states that distinct numbers give distinct strings |
| Paths.Indexed | ckanext/oaipmh/importformats.py:76-77 | definition: the instance key `'%s.%d' % (p, i)`, that is `p + "." + NatToString(i)`; `IndexedApart` and `IndexedBelow` state that distinct indices give disjoint subtrees below `p.` |
| Paths.CountKey | ckanext/oaipmh/importformats.py:69-74 | definition: the count key `p + ".count"`; `CountKeyNotIndexed` states that it is no instance key |
| Projection.CountValue | ckanext/oaipmh/importformats.py:69 | definition: `md.get(source + '.count', 0)`, the stored count value or `Num(0)` when the key is absent |
| Projection.CountOf | ckanext/oaipmh/importformats.py:69-75 | definition: the number of instances `range(count)` iterates: the stored number, and 0 for absent, None or the empty string |
| Projection.Truthy | ckanext/oaipmh/importformats.py:70 | definition: Python truthiness of a value as `if not count` tests it: non-empty strings and non-zero numbers |
| Projection.Project | ckanext/oaipmh/importformats.py:57-78 | definition of what one `copy_element` call writes and invokes, computed on the record before the call: the scalar branch when `source` is a key, nothing for a falsy count, otherwise `dest.count` followed by the instances; its laws are the CopyLaws and CopyProperties rows |
| Projection.ProjectScalar | ckanext/oaipmh/importformats.py:57-67 | definition of the scalar branch: value to `dest`, the three language spellings to `dest/language` in source order, the resource copy to `dest`, then the callback |
| Projection.ProjectUpTo | ckanext/oaipmh/importformats.py:75-78 | definition of the first n passes of the instance loop: instances 0..n-1 copied to the same instances of `dest` in ascending order with the same callback |
| Projection.Invoke | ckanext/oaipmh/importformats.py:65-66 | definition of a callback run: nothing without a callback, otherwise the effect of the named callback on `(source, dest)` |
| Projection.PersonAttrs | ckanext/oaipmh/importformats.py:81-86 | definition of `person_attrs`: its invocation, then the name, e-mail and phone copies in that order |
| Projection.DocumentAttrs | ckanext/oaipmh/importformats.py:103-109 | definition of `document_attrs`: its invocation, then the title, identifier, `dct:creator`, `nrd:creator` (with `person_attrs`) and description copies in that order |
| Projection.FundingAttrs | ckanext/oaipmh/importformats.py:111-114 | definition of `funding_attrs`: its invocation, then the grant number and the funder (with `person_attrs`) |
| Projection.FileAttrs | ckanext/oaipmh/importformats.py:116-121 | definition of `file_attrs`: its invocation, then the media type, checksum value, checksum algorithm and size copies in that order |
| NrdReader.Applied | ckanext/oaipmh/importformats.py:148-149 | definition of the rule loop: the rules applied with `copy_element` in table order, each to the record the previous ones left |
| NrdReader.FromInput | ckanext/oaipmh/importformats.py:148-149 | independent definition of the loop's result: the input overlaid, in table order, with what each rule projects from the input itself; `RulesReadInput` proves it equal to `Applied` |
| NrdReader.TableCalls | ckanext/oaipmh/importformats.py:148-149 | definition of the callback invocations the loop makes: each rule's invocations, computed on the input, in table order |
| Copier.MetadataDict.CopyElement | ckanext/oaipmh/importformats.py:36-78 | the dictionary after `copy_element(source, dest, md, callback)` is the old one overlaid with `Project` of the old one; the callback invocations are appended in the order the recursion makes them |
| Copier.MetadataDict.CopyValue | ckanext/oaipmh/importformats.py:57-67 | a present source: its value is written to `dest`, then the three language spellings go to `dest/language` in source order, then the resource goes over `dest`, then the callback runs if there is one; the result equals `ProjectScalar` of the old record |
| Copier.MetadataDict.CopyTail | ckanext/oaipmh/importformats.py:62-67 | after the language copies: the resource copy, then the callback when there is one, with the dictionary and calls extended by exactly those effects |
| Copier.MetadataDict.CopyInstances | ckanext/oaipmh/importformats.py:73-78 | a positive count is written to `dest.count`, and instances 0..N-1 are copied in ascending order with the same callback; the result equals `Project` of the old record |
| Copier.MetadataDict.CopyInstance | ckanext/oaipmh/importformats.py:76-78 | one loop pass: after instances 0..i-1, copying `source.i` to `dest.i` gives the effect of instances 0..i; the source subtree stays as it was |
| Copier.MetadataDict.Call | ckanext/oaipmh/importformats.py:65-66 | dispatching a callback extends the dictionary and calls by `Invoke` of the old record |
| Copier.MetadataDict.PersonAttrs | ckanext/oaipmh/importformats.py:81-86 | name, e-mail and phone are copied in that order; the result equals `Projection.PersonAttrs` of the old record |
| Copier.MetadataDict.DocumentAttrs | ckanext/oaipmh/importformats.py:103-109 | title, identifier over `dest`, `dct:creator` to `creator.0/name`, `nrd:creator` with `person_attrs`, then description; the result equals `Projection.DocumentAttrs` of the old record |
| Copier.MetadataDict.FundingAttrs | ckanext/oaipmh/importformats.py:111-114 | grant number, then the funder with `person_attrs`; the result equals `Projection.FundingAttrs` of the old record |
| Copier.MetadataDict.FileAttrs | ckanext/oaipmh/importformats.py:116-121 | media type, checksum value, checksum algorithm and size, in that order; the result equals `Projection.FileAttrs` of the old record |
| CopyLaws.ProjectWrites | ckanext/oaipmh/importformats.py:58-78 | every key a copy writes is `dest` or below it (after `/` or `.`); an absent source writes only keys that start with `dest.` |
| CopyLaws.UpToWrites | ckanext/oaipmh/importformats.py:75-78 | the instance copies write only below `dest.` and never `dest.count` itself |
| CopyLaws.InvokeWrites | ckanext/oaipmh/importformats.py:65-66 | a callback writes only below `dest`; every callback except `document_attrs` leaves `dest` and `dest/language` alone |
| CopyLaws.ProjectCalls | ckanext/oaipmh/importformats.py:59-66 | a copy invokes only its own callback or callbacks of lower rank; a copy without a callback invokes none, so the language and resource copies never run the callback |
| CopyLaws.InvokeCalls | ckanext/oaipmh/importformats.py:65-66 | a callback's first invocation is itself with `(source, dest)`; any later ones are of strictly lower rank |
| CopyLaws.PersonCalls | ckanext/oaipmh/importformats.py:81-86 | `person_attrs` makes no callback invocation besides its own |
| CopyLaws.DocumentCalls | ckanext/oaipmh/importformats.py:103-109 | `document_attrs` invokes itself first; every later invocation is `person_attrs` |
| CopyLaws.FundingCalls | ckanext/oaipmh/importformats.py:111-114 | `funding_attrs` invokes itself first; every later invocation is `person_attrs` |
| CopyLaws.FileCalls | ckanext/oaipmh/importformats.py:116-121 | `file_attrs` makes no callback invocation besides its own |
| CopyLaws.ProjectPlain | ckanext/oaipmh/importformats.py:57-78 | a plain copy writes only `dest`, keys below `dest/language`, and keys starting with `dest.` |
| CopyLaws.ProjectLocal | ckanext/oaipmh/importformats.py:57-78 | the effect of a copy depends only on the keys that start with the source string |
| CopyProperties.ScalarSplit | ckanext/oaipmh/importformats.py:57-67 | a scalar copy with a callback is the plain copy followed by the callback; the plain copy invokes no callback |
| CopyProperties.PlainValue | ckanext/oaipmh/importformats.py:58-62 | a plain scalar copy leaves `Resolve(m, s)` at `dest`: `m[s]`, or, following `/@rdf:resource` links, the resource's value |
| CopyProperties.PlainLanguage | ckanext/oaipmh/importformats.py:59-62 | a plain scalar copy writes `dest/language` exactly when `LanguageOf(m, s)` exists, and writes that value there |
| CopyProperties.ScalarTarget | ckanext/oaipmh/importformats.py:57-62 | after a scalar copy with any callback but `document_attrs`, `dest` holds `Resolve(m, s)`, and holds `m[s]` when the source has no resource |
| CopyProperties.LanguageTarget | ckanext/oaipmh/importformats.py:59-62 | with any callback but `document_attrs`: with a language, `dest/language` holds `LanguageOf(m, s)`; without one, `dest/language` is unchanged |
| CopyProperties.LanguagePrecedence | ckanext/oaipmh/importformats.py:59-61 | with any callback but `document_attrs` and plain annotations, `dest/language` is `@xml:lang` if present, else `@lang`, else `language`, else unchanged |
| CopyProperties.DocumentLanguage | ckanext/oaipmh/importformats.py:57-109 | with `document_attrs`, `dest/language` is the identifier's language when `s/dct:identifier` is present and has one (the identifier copy runs after the scalar copy and overwrites it), else the source's own language, else unchanged |
| CopyProperties.DocumentTarget | ckanext/oaipmh/importformats.py:106 | with `document_attrs`, the identifier copy of line 106 over the scalar copy of lines 57-62: `dest` ends up as the resolved `dct:identifier` when present, and as the resolved source otherwise |
| CopyProperties.ZeroCountNoOp | ckanext/oaipmh/importformats.py:69-71 | an absent source whose count is absent, 0, None or empty leaves the dictionary unchanged and runs no callback |
| CopyProperties.CopyWritesIff | ckanext/oaipmh/importformats.py:57-78 | a copy writes nothing if and only if the source is absent and its count is falsy |
| CopyProperties.CountAligned | ckanext/oaipmh/importformats.py:73-78 | with a positive count N, `dest.count` is the source's count and every write is `dest.count` or below some `dest.i`, i < N |
| CopyProperties.InstanceAligned | ckanext/oaipmh/importformats.py:75-78 | below `dest.i` the counted copy leaves exactly what copying `source.i` to `dest.i` with the same callback leaves |
| CopyProperties.InstancesAligned | ckanext/oaipmh/importformats.py:75-78 | the same, for all instances i < N at once |
| CopyProperties.MissingInstanceSkipped | ckanext/oaipmh/importformats.py:69-78 | an instance with neither its own key nor a count of its own leaves nothing below `dest.i` |
| CopyProperties.CallbackOnce | ckanext/oaipmh/importformats.py:64-66 | for a present source, the callback's invocations are exactly one, with `(source, dest)`, and it is the first invocation; with no callback there are none |
| CopyProperties.CallbackPerInstance | ckanext/oaipmh/importformats.py:75-78 | when all N instances are present keys, the callback is invoked exactly N times, once per index with `(source.i, dest.i)`, in increasing order |
| CopyProperties.CopyFrame | ckanext/oaipmh/importformats.py:58-78 | every written key has `dest` as a prefix and lies below it; every key not below `dest` keeps its entry |
| CopyProperties.SourceUntouched | ckanext/oaipmh/importformats.py:58-78 | with disjoint trees, every key under `source` keeps its entry |
| CopyProperties.CopyIdempotent | ckanext/oaipmh/importformats.py:36-78 | with disjoint trees, repeating a copy changes nothing |
| CopyProperties.PersonFrame | ckanext/oaipmh/importformats.py:84-86 | `person_attrs` writes only below `dest/name`, `dest/email` and `dest/phone` |
| CopyProperties.DocumentFrame | ckanext/oaipmh/importformats.py:105-109 | `document_attrs` writes only `dest` (and its language and instances) and below `dest/title`, `dest/creator.0/name`, `dest/creator` and `dest/description` |
| CopyProperties.FundingFrame | ckanext/oaipmh/importformats.py:113-114 | `funding_attrs` writes only below `dest/fundingNumber` and `dest/funder` |
| CopyProperties.FileFrame | ckanext/oaipmh/importformats.py:118-121 | `file_attrs` writes only below `dest/mimetype`, `dest/checksum.0`, `dest/checksum.0/algorithm` and `dest/size` |
| CopyProperties.FirstPersonName | ckanext/oaipmh/importformats.py:81-84 | a counted person copy writes the first person's resolved `foaf:name` to `dest.0/name` |
| CopyProperties.CreatorOverride | ckanext/oaipmh/importformats.py:107-108 | when `nrd:creator.0` and its `foaf:name` are present, `document_attrs` leaves that name at `dest/creator.0/name`, over any `dct:creator` |
| CopyProperties.CreatorFallback | ckanext/oaipmh/importformats.py:107-108 | with no `nrd:creator`, `dest/creator.0/name` is the resolved `dct:creator`, and `dest/creator.count` is not written |
| CopyProperties.CreatorCountUntouched | ckanext/oaipmh/importformats.py:105-109 | none of the title, identifier, `dct:creator` and description copies of `document_attrs` writes `dest/creator.count` |
| NrdReader.RulesWellFormed | ckanext/oaipmh/importformats.py:123-147 | the table has 23 rules, each reading below `dataset` and writing to a key incomparable with it |
| NrdReader.RulesReadInput | ckanext/oaipmh/importformats.py:148-149 | applying rules in order equals overlaying each rule's projection of the input: no rule reads what an earlier one wrote, and the `dataset` subtree is never changed |
| NrdReader.RuleReady | ckanext/oaipmh/importformats.py:148-149 | a record that still agrees with the input below `dataset` projects every rule exactly as the input does, so the in-place copy of that rule may be run on it |
| NrdReader.ApplyRule | ckanext/oaipmh/importformats.py:148-149 | one pass of the loop adds exactly the next rule's copy, and appends that copy's callback invocations to `calls` |
| NrdReader.ApplyRules | ckanext/oaipmh/importformats.py:148-149 | the loop applies each rule once, in table order, and gives the fold `Applied` (equal to `FromInput`) of the record; `calls` grows by `TableCalls`, each rule's invocations of the input in table order |
| NrdReader.Lower | ckanext/oaipmh/importformats.py:152 | lower-casing keeps the length and maps each character by ASCII case folding |
| NrdReader.WithRights | ckanext/oaipmh/importformats.py:150-159 | on every failure before the category, the record is unchanged; otherwise `rightsclass` is the lowered category; `license` (for `licensed`) and `accessURL` (for `contractual`) are set to the first child's text exactly when a first child exists, and are unchanged otherwise; no key is removed and no other key changes |
| NrdReader.PostProcessRights | ckanext/oaipmh/importformats.py:150-159 | the in-place `try` block, which stops at the first failure, leaves `WithRights` of the record and makes no callback invocation |
| NrdReader.FromInputSplit | ckanext/oaipmh/importformats.py:148-149 | overlaying the rules' projections one by one equals overlaying their union once |
| NrdReader.TableWritesLocal | ckanext/oaipmh/importformats.py:148-149 | what the table writes depends only on the keys under `dataset` |
| NrdReader.RulesAvoidRights | ckanext/oaipmh/importformats.py:123-159 | none of `rightsclass`, `license` and `accessURL` lies below a destination of the table |
| NrdReader.RightsIdempotent | ckanext/oaipmh/importformats.py:150-159 | running the rights step on its own result changes nothing |
| NrdReader.ReadIdempotent | ckanext/oaipmh/importformats.py:123-159 | reading the reader's own result again gives that same result, stated for both the fold and the overlay form |
| NrdReader.ReadNrd | ckanext/oaipmh/importformats.py:101-160 | the reader's result is the rights step applied to the table applied to the flattened input, both as an in-place fold and as an overlay of projections of the input |

## Left out

- Parsing the `rights` string with `lxml.etree.XML` (line 151) is not modelled. It is the parameter `parse`, which gives `None` for a parse error, and for a document its `RIGHTSCATEGORY` attribute and the text of its first child, each optional.
- The `.lower()` call is modelled as ASCII lower-casing. Unicode case mapping is out of scope.
- `rdf_reader(xml).getMap()` is not modelled: `ReadNrd` takes the flattened dictionary directly.
- The `oc.Metadata` wrapper is not modelled: `ReadNrd` returns the resulting dictionary itself.
- `create_metadata_registry` (lines 163–179) only assembles readers from a library that is not part of this model.
- `ExceptReturn` (lines 21–33) is an exception-to-fallback decorator that this file defines but never applies.
- Logging is left out.
- The `fn.uniform.range` import is left out: `range(count)` is the loop over 0..count-1.
- Copier.MetadataDict.CopyElement: requires that the source and destination paths are incomparable. This excludes a destination inside the source tree, which may never terminate because the source has no recursion guard. It also excludes a source inside the destination tree, such as `copy_element('a/b', 'a', md)`. Both are excluded because the copy could read its own writes. Every rule of the table meets this precondition.
- Copier.MetadataDict.CopyElement: requires that every `.count` value whose key starts with the source string is a number, `None` or the empty string. Any other string count that the copy reads makes Python raise `TypeError` in `range`. The precondition also excludes such counts where the copy never reads them, as in `copy_element('x', 'y', md)` on `{'x': 'v', 'x/other.count': 'abc'}`. Counts are naturals (`Num(number: nat)`), so negative integer counts are not modelled either. For such a count Python writes it to `dest.count` and then iterates nothing. `ReadNrd` requires the same of the whole `dataset` subtree.
- Copier.MetadataDict.CopyElement: the callback invocations are kept in a ghost field. Python never records them; they exist only to state when and how often a callback runs.
- Callbacks other than the four of the source are not modelled. The source may pass any function, but the reader passes only these four, so the callback is an enumeration.
- NrdReader.ReadNrd: does not prove that the order of the table is irrelevant. It does not prove either that the 23 destinations are pairwise disjoint. What is proved is that no rule reads what another rule wrote (`RulesReadInput`): the rules are still overlaid in table order. Reading twice is proved to give the same record (`ReadIdempotent`).
- Exceptions other than those listed for the rights step are not modelled. The bare `except` also swallows memory errors and interrupts.
- Under a count, an instance `s.i` is copied only in two cases: its own key `s.i` exists (line 57), or it has a truthy count `s.i.count` of its own (lines 69-71). Otherwise nothing below it is copied (`MissingInstanceSkipped`). So a record with `nrd:creator.count` but no key `nrd:creator.0` loses that creator's `foaf:name`, for example when the creator is a bare node with only a name below it. The model follows the code here.
