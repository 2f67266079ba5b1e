/** What is written into the metadata sections of a module is what the parser gives back, each stream under its name. */
module WasmWriting {
  import opened Text
  import opened Leb128
  import opened WasmSections

  // ---------------------------------------------------------------- streams

  function Written<E>(encode: E -> Bytes, es: seq<E>): Bytes {
    if es == [] then [] else encode(es[0]) + Written(encode, es[1..])
  }

  /** The decoder reads back one written entry, whatever follows it. */
  ghost predicate ReadsBack<E(!new)>(decode: EntryDecoder<E>, encode: E -> Bytes) {
    forall name: Bytes, e: E, more: Bytes :: encode(e) != [] && decode(name, encode(e) + more) == Some((e, |encode(e)|))
  }

  lemma {:induction false} StreamIsRead<E(!new)>(decode: EntryDecoder<E>, encode: E -> Bytes, name: Bytes, es: seq<E>)
    requires ReadsBack(decode, encode)
    ensures Stream(decode, name, Written(encode, es)) == Some(es)
  {
    if es != [] {
      var first, rest := encode(es[0]), Written(encode, es[1..]);
      StreamIsRead(decode, encode, name, es[1..]);
      assert decode(name, first + rest) == Some((es[0], |first|));
      assert (first + rest)[|first|..] == rest;
      assert [es[0]] + es[1..] == es;
    }
  }

  // ---------------------------------------------------------------- modules

  /** A part of a module: entries for one of the three metadata streams, or a section without metadata. */
  datatype Part<E> =
    | SpecPart(entries: seq<E>)
    | EnvMetaPart(entries: seq<E>)
    | MetaPart(entries: seq<E>)
    | CodePart(id: Byte, payload: Bytes)
    | NotePart(name: Bytes, content: Bytes)

  function BytesOf(s: string): Bytes
    requires forall i :: 0 <= i < |s| ==> s[i] as int < 128
  {
    seq(|s|, i requires 0 <= i < |s| => s[i] as int)
  }

  function SectionOf<E>(encode: E -> Bytes, p: Part<E>): Section {
    match p
    case SpecPart(es) => Section(0, CustomPayload(CustomSection(BytesOf("contractspecv0"), Written(encode, es))))
    case EnvMetaPart(es) => Section(0, CustomPayload(CustomSection(BytesOf("contractenvmetav0"), Written(encode, es))))
    case MetaPart(es) => Section(0, CustomPayload(CustomSection(BytesOf("contractmetav0"), Written(encode, es))))
    case CodePart(id, payload) => Section(id, payload)
    case NotePart(name, content) => Section(0, CustomPayload(CustomSection(name, content)))
  }

  function SectionsOf<E>(encode: E -> Bytes, ps: seq<Part<E>>): (ss: seq<Section>)
    ensures |ss| == |ps| && forall i :: 0 <= i < |ps| ==> ss[i] == SectionOf(encode, ps[i])
  {
    if ps == [] then [] else [SectionOf(encode, ps[0])] + SectionsOf(encode, ps[1..])
  }

  /** Sections fit their 32-bit sizes; code has an identifier of its own, and a note a name of its own. */
  predicate Fits<E>(encode: E -> Bytes, p: Part<E>) {
    |SectionOf(encode, p).payload| < TWO_TO_THE_32
    && (p.CodePart? ==> p.id != 0)
    && (p.NotePart? ==>
          |p.name| < TWO_TO_THE_32 && p.name != BytesOf("contractspecv0") && p.name != BytesOf("contractenvmetav0") && p.name != BytesOf("contractmetav0"))
  }

  /** The entries of all parts of one kind, in order. */
  function SpecsOf<E>(ps: seq<Part<E>>): seq<E> {
    if ps == [] then [] else (if ps[0].SpecPart? then ps[0].entries else []) + SpecsOf(ps[1..])
  }

  function EnvMetasOf<E>(ps: seq<Part<E>>): seq<E> {
    if ps == [] then [] else (if ps[0].EnvMetaPart? then ps[0].entries else []) + EnvMetasOf(ps[1..])
  }

  function MetasOf<E>(ps: seq<Part<E>>): seq<E> {
    if ps == [] then [] else (if ps[0].MetaPart? then ps[0].entries else []) + MetasOf(ps[1..])
  }

  lemma NamesAreSpelled()
    ensures BytesOf("contractspecv0") == SpecSection()
    ensures BytesOf("contractenvmetav0") == EnvMetaSection()
    ensures BytesOf("contractmetav0") == MetaSection()
    ensures |SpecSection()| < TWO_TO_THE_32 && |EnvMetaSection()| < TWO_TO_THE_32 && |MetaSection()| < TWO_TO_THE_32
  {
  }

  /** The name and content of the custom section of a part. */
  function CustomOf<E>(encode: E -> Bytes, p: Part<E>): CustomSection
    requires !p.CodePart?
  {
    match p
    case SpecPart(es) => CustomSection(SpecSection(), Written(encode, es))
    case EnvMetaPart(es) => CustomSection(EnvMetaSection(), Written(encode, es))
    case MetaPart(es) => CustomSection(MetaSection(), Written(encode, es))
    case NotePart(name, content) => CustomSection(name, content)
  }

  lemma PartIsCustom<E>(encode: E -> Bytes, p: Part<E>)
    requires Fits(encode, p) && !p.CodePart?
    ensures SectionOf(encode, p).id == 0 && Custom(SectionOf(encode, p).payload) == Some(CustomOf(encode, p))
  {
    hide Custom, CustomPayload, SpecSection, EnvMetaSection, MetaSection, BytesOf, Written;
    NamesAreSpelled();
    CustomPayloadIsRead(CustomOf(encode, p));
  }

  /** The entries a part contributes to the stream of a name. */
  function EntriesFor<E>(p: Part<E>, name: Bytes): seq<E> {
    if (p.SpecPart? && name == SpecSection()) || (p.EnvMetaPart? && name == EnvMetaSection()) || (p.MetaPart? && name == MetaSection())
    then p.entries else []
  }

  predicate KnownName(name: Bytes) {
    name == SpecSection() || name == EnvMetaSection() || name == MetaSection()
  }

  lemma GatheredStep<E(!new)>(decode: EntryDecoder<E>, encode: E -> Bytes, name: Bytes, p: Part<E>, rest: seq<Section>)
    requires ReadsBack(decode, encode) && Fits(encode, p) && KnownName(name)
    ensures Gathered(decode, name, [SectionOf(encode, p)] + rest) ==
            Prepended(EntriesFor(p, name), Gathered(decode, name, rest))
  {
    hide Custom, SpecSection, EnvMetaSection, MetaSection, SectionOf, Stream, Written, ReadsBack;
    var s := SectionOf(encode, p);
    assert ([s] + rest)[1..] == rest;
    NamesDiffer();
    if p.CodePart? {
      CodeIsKept(encode, p);
      PrependedNothing(Gathered(decode, name, rest));
    } else {
      PartIsCustom(encode, p);
      NoteIsUnknown(encode, p);
      if !p.NotePart? {
        StreamIsRead(decode, encode, CustomOf(encode, p).name, p.entries);
      }
      PrependedNothing(Gathered(decode, name, rest));
    }
  }

  lemma CodeIsKept<E>(encode: E -> Bytes, p: Part<E>)
    requires p.CodePart? && Fits(encode, p)
    ensures SectionOf(encode, p).id != 0
  {
  }

  lemma NoteIsUnknown<E>(encode: E -> Bytes, p: Part<E>)
    requires Fits(encode, p)
    ensures p.NotePart? ==> !KnownName(p.name)
  {
    NamesAreSpelled();
  }

  lemma {:induction false} AllGathered<E(!new)>(decode: EntryDecoder<E>, encode: E -> Bytes, ps: seq<Part<E>>)
    requires ReadsBack(decode, encode) && forall i :: 0 <= i < |ps| ==> Fits(encode, ps[i])
    ensures Gathered(decode, SpecSection(), SectionsOf(encode, ps)) == Some(SpecsOf(ps))
    ensures Gathered(decode, EnvMetaSection(), SectionsOf(encode, ps)) == Some(EnvMetasOf(ps))
    ensures Gathered(decode, MetaSection(), SectionsOf(encode, ps)) == Some(MetasOf(ps))
  {
    hide SpecSection, EnvMetaSection, MetaSection, SectionOf, ReadsBack, Fits, Gathered;
    if ps == [] {
      NothingGathered(decode);
    } else {
      var rest := SectionsOf(encode, ps[1..]);
      AllGathered(decode, encode, ps[1..]);
      NamesDiffer();
      GatheredStep(decode, encode, SpecSection(), ps[0], rest);
      GatheredStep(decode, encode, EnvMetaSection(), ps[0], rest);
      GatheredStep(decode, encode, MetaSection(), ps[0], rest);
    }
  }

  lemma NothingGathered<E>(decode: EntryDecoder<E>)
    ensures forall name :: Gathered(decode, name, []) == Some([])
  {
  }

  lemma AllNamed<E>(encode: E -> Bytes, ps: seq<Part<E>>)
    requires forall i :: 0 <= i < |ps| ==> Fits(encode, ps[i])
    ensures Named(SectionsOf(encode, ps))
  {
    hide Custom, SectionOf, Fits;
    forall i | 0 <= i < |ps| && SectionOf(encode, ps[i]).id == 0
      ensures Custom(SectionOf(encode, ps[i]).payload).Some?
    {
      if ps[i].CodePart? {
        CodeIsKept(encode, ps[i]);
      } else {
        PartIsCustom(encode, ps[i]);
      }
    }
  }

  /** A written module is parsed into the entries of its parts: each stream from the sections of its own name, in order. */
  lemma WrittenModuleIsParsed<E(!new)>(decode: EntryDecoder<E>, encode: E -> Bytes, ps: seq<Part<E>>)
    requires ReadsBack(decode, encode) && forall i :: 0 <= i < |ps| ==> Fits(encode, ps[i])
    ensures Parsed(decode, Assembled(SectionsOf(encode, ps))) == Some(Metadata(SpecsOf(ps), EnvMetasOf(ps), MetasOf(ps)))
  {
    hide SpecSection, EnvMetaSection, MetaSection, ReadsBack, Gathered, Named, Sections, Assembled, SectionOf, Fits;
    WrittenModuleIsRead(encode, ps);
    AllGathered(decode, encode, ps);
  }

  lemma WrittenModuleIsRead<E>(encode: E -> Bytes, ps: seq<Part<E>>)
    requires forall i :: 0 <= i < |ps| ==> Fits(encode, ps[i])
    ensures Sections(Assembled(SectionsOf(encode, ps))) == Some(SectionsOf(encode, ps)) && Named(SectionsOf(encode, ps))
  {
    hide Named, Sections, Assembled, SectionOf, Fits;
    var ss := SectionsOf(encode, ps);
    forall i | 0 <= i < |ss|
      ensures |ss[i].payload| < TWO_TO_THE_32
    {
      FitsSize(encode, ps[i]);
    }
    AssembledIsRead(ss);
    AllNamed(encode, ps);
  }

  lemma FitsSize<E>(encode: E -> Bytes, p: Part<E>)
    requires Fits(encode, p)
    ensures |SectionOf(encode, p).payload| < TWO_TO_THE_32
  {
  }

  /** The extractor returns the bytes of the first specification part, or says that there is none. */
  lemma WrittenSpecIsExtracted<E(!new)>(encode: E -> Bytes, before: seq<Part<E>>, p: Part<E>, after: seq<Part<E>>)
    requires forall i :: 0 <= i < |before| ==> Fits(encode, before[i]) && !before[i].SpecPart?
    requires Fits(encode, p) && p.SpecPart? && forall i :: 0 <= i < |after| ==> Fits(encode, after[i])
    ensures Extracted(Assembled(SectionsOf(encode, before + [p] + after))) == Ok(Written(encode, p.entries))
  {
    hide SpecSection, Sections, Assembled, SectionsOf, SectionOf, Fits, Extracted, FirstNamed, Named, Written;
    var ps, rest := before + [p] + after, SectionsOf(encode, after);
    WrittenModuleIsRead(encode, ps);
    ExtractorFollowsGrammar(Assembled(SectionsOf(encode, ps)));
    SectionsAround(encode, before, p, after);
    NoSpecBefore(encode, before);
    FirstNamedSkips(SectionsOf(encode, before), [SectionOf(encode, p)] + rest, SpecSection());
    SpecIsFirst(encode, p, rest);
  }

  lemma SectionsAround<E>(encode: E -> Bytes, before: seq<Part<E>>, p: Part<E>, after: seq<Part<E>>)
    ensures SectionsOf(encode, before + [p] + after) == SectionsOf(encode, before) + ([SectionOf(encode, p)] + SectionsOf(encode, after))
  {
    hide SectionOf;
  }

  lemma SpecIsFirst<E>(encode: E -> Bytes, p: Part<E>, rest: seq<Section>)
    requires Fits(encode, p) && p.SpecPart?
    ensures FirstNamed([SectionOf(encode, p)] + rest, SpecSection()) == Some(Written(encode, p.entries))
  {
    hide SpecSection, SectionOf, Custom, Written;
    PartIsCustom(encode, p);
  }

  lemma {:induction false} NoSpecBefore<E>(encode: E -> Bytes, ps: seq<Part<E>>)
    requires forall i :: 0 <= i < |ps| ==> Fits(encode, ps[i]) && !ps[i].SpecPart?
    ensures FirstNamed(SectionsOf(encode, ps), SpecSection()).None?
  {
    hide SpecSection, EnvMetaSection, MetaSection, SectionOf, Custom, Fits, Written;
    if ps != [] {
      NoSpecBefore(encode, ps[1..]);
      NamesDiffer();
      assert SectionsOf(encode, ps)[1..] == SectionsOf(encode, ps[1..]);
      if ps[0].CodePart? {
        CodeIsKept(encode, ps[0]);
      } else {
        PartIsCustom(encode, ps[0]);
        NoteIsUnknown(encode, ps[0]);
      }
    }
  }
}
