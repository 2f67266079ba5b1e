/** Two independent walks over the sections of a WASM module, against the section grammar. */
module WasmSections {
  import opened Text
  import opened Leb128

  type Bytes = seq<Byte>

  const HEADER_SIZE: nat := 8

  /** The four bytes every module opens with. */
  function Magic(): Bytes { [0, 97, 115, 109] }

  function Version(): Bytes { [1, 0, 0, 0] }

  /** "contractspecv0", "contractenvmetav0" and "contractmetav0" as bytes. */
  function SpecSection(): Bytes { [99, 111, 110, 116, 114, 97, 99, 116, 115, 112, 101, 99, 118, 48] }
  function EnvMetaSection(): Bytes { [99, 111, 110, 116, 114, 97, 99, 116, 101, 110, 118, 109, 101, 116, 97, 118, 48] }
  function MetaSection(): Bytes { [99, 111, 110, 116, 114, 97, 99, 116, 109, 101, 116, 97, 118, 48] }

  // ---------------------------------------------------------------- the grammar

  datatype Section = Section(id: Byte, payload: Bytes)

  datatype CustomSection = CustomSection(name: Bytes, content: Bytes)

  /** Section 5.5.2 of the WebAssembly Core Specification: one section, its size as a 32-bit integer. */
  function FirstSection(b: Bytes): (first: Option<(Section, Bytes)>)
    ensures first.Some? ==> |first.value.1| < |b|
  {
    if b == [] then None
    else
      match ReadU(32, b[1..])
      case None => None
      case Some(r) =>
        if r.size > |b| - 1 || r.value > |b| - 1 - r.size then None
        else Some((Section(b[0], b[1 + r.size..][..r.value]), b[1 + r.size..][r.value..]))
  }

  function Sections(b: Bytes): Option<seq<Section>>
    decreases |b|
  {
    if b == [] then Some([])
    else
      match FirstSection(b)
      case None => None
      case Some(first) =>
        match Sections(first.1)
        case None => None
        case Some(rest) => Some([first.0] + rest)
  }

  /** Section 5.5.3: a custom section opens with its name, a vector of bytes. */
  function Custom(payload: Bytes): Option<CustomSection> {
    match ReadU(32, payload)
    case None => None
    case Some(r) =>
      if r.size > |payload| || r.value > |payload| - r.size then None
      else Some(CustomSection(payload[r.size..][..r.value], payload[r.size..][r.value..]))
  }

  /** Every custom section has a readable name. */
  predicate Named(ss: seq<Section>) {
    forall i :: 0 <= i < |ss| && ss[i].id == 0 ==> Custom(ss[i].payload).Some?
  }

  /** The content of the first custom section with the given name. */
  function FirstNamed(ss: seq<Section>, name: Bytes): Option<Bytes> {
    if ss == [] then None
    else if ss[0].id == 0 && Custom(ss[0].payload).Some? && Custom(ss[0].payload).value.name == name then
      Some(Custom(ss[0].payload).value.content)
    else FirstNamed(ss[1..], name)
  }

  predicate IsWasm(code: Bytes) {
    |code| >= HEADER_SIZE && code[..4] == Magic() && code[4..HEADER_SIZE] == Version()
  }

  datatype Failure = NotWasm | MalformedWasm | NoContractSpecSection

  datatype Outcome<+T> = Ok(value: T) | Err(failure: Failure)

  // ---------------------------------------------------------------- the metadata parser

  /** The decoder of one entry of a named stream: the entry and the bytes it took. */
  type EntryDecoder<!E> = (Bytes, Bytes) -> Option<(E, int)>

  /** The entries of a stream: they follow one another with nothing between, and each takes at least one byte. */
  function Stream<E>(decode: EntryDecoder<E>, name: Bytes, content: Bytes): Option<seq<E>>
    decreases |content|
  {
    if content == [] then Some([])
    else
      match decode(name, content)
      case None => None
      case Some(e) =>
        if e.1 <= 0 || e.1 > |content| then None
        else
          match Stream(decode, name, content[e.1..])
          case None => None
          case Some(rest) => Some([e.0] + rest)
  }

  /** All entries of the custom sections with a name, in module order. */
  function Gathered<E>(decode: EntryDecoder<E>, name: Bytes, ss: seq<Section>): Option<seq<E>> {
    if ss == [] then Some([])
    else
      var rest := Gathered(decode, name, ss[1..]);
      if ss[0].id != 0 || Custom(ss[0].payload).None? || Custom(ss[0].payload).value.name != name then rest
      else
        var entries := Stream(decode, name, Custom(ss[0].payload).value.content);
        if entries.None? || rest.None? then None else Some(entries.value + rest.value)
  }

  /** What a module's metadata sections hold. */
  datatype Metadata<E> = Metadata(spec: seq<E>, envMeta: seq<E>, meta: seq<E>)

  /** The metadata of the sections, present when every custom section is readable and every known stream decodes. */
  function MetadataOf<E>(decode: EntryDecoder<E>, ss: seq<Section>): Option<Metadata<E>> {
    var spec, envMeta, meta := Gathered(decode, SpecSection(), ss), Gathered(decode, EnvMetaSection(), ss), Gathered(decode, MetaSection(), ss);
    if Named(ss) && spec.Some? && envMeta.Some? && meta.Some? then Some(Metadata(spec.value, envMeta.value, meta.value)) else None
  }

  function Parsed<E>(decode: EntryDecoder<E>, b: Bytes): Option<Metadata<E>> {
    match Sections(b)
    case None => None
    case Some(ss) => MetadataOf(decode, ss)
  }

  /** Metadata found so far, followed by that of the rest of the module. */
  function Joined<E>(found: Metadata<E>, rest: Option<Metadata<E>>): Option<Metadata<E>> {
    match rest
    case None => None
    case Some(m) => Some(Metadata(found.spec + m.spec, found.envMeta + m.envMeta, found.meta + m.meta))
  }

  /** The streams a custom section contributes. */
  function Contribution<E>(decode: EntryDecoder<E>, c: CustomSection): Option<Metadata<E>> {
    if c.name != SpecSection() && c.name != EnvMetaSection() && c.name != MetaSection() then Some(Metadata([], [], []))
    else
      match Stream(decode, c.name, c.content)
      case None => None
      case Some(entries) =>
        if c.name == SpecSection() then Some(Metadata(entries, [], []))
        else if c.name == EnvMetaSection() then Some(Metadata([], entries, []))
        else Some(Metadata([], [], entries))
  }

  method CustomSectionOf(payload: Bytes) returns (r: Option<CustomSection>)
    ensures r == Custom(payload)
  {
    hide ReadU;
    var name := ReadU32(payload);
    if name.None? {
      return None;
    }
    ReadUFits(32, payload);
    var rest := payload[name.value.size..];
    if name.value.value > |rest| {
      return None;
    }
    return Some(CustomSection(rest[..name.value.value], rest[name.value.value..]));
  }

  lemma U32IsBounded(b: Bytes)
    ensures ReadU(32, b).Some? ==> 1 <= ReadU(32, b).value.size <= |b| && ReadU(32, b).value.value < TWO_TO_THE_32
  {
    hide ReadU, Leb, Pow2;
    ReadUFits(32, b);
    ReadUIsBoundedLeb(32, b);
    Powers();
  }

  lemma {:induction false} ReadUFits(n: nat, b: Bytes)
    ensures ReadU(n, b).Some? ==> 1 <= ReadU(n, b).value.size <= |b|
  {
    if b != [] && b[0] >= 128 && n > 7 {
      ReadUFits(n - 7, b[1..]);
    }
  }

  method DecodeSectionStream<E>(decode: EntryDecoder<E>, name: Bytes, content: Bytes) returns (r: Option<seq<E>>)
    ensures r == Stream(decode, name, content)
  {
    var rest, entries: seq<E> := content, [];
    PrependedNothing(Stream(decode, name, content));
    while rest != []
      invariant Stream(decode, name, content) == Prepended(entries, Stream(decode, name, rest))
      decreases |rest|
    {
      var e := decode(name, rest);
      if e.None? || e.value.1 <= 0 || e.value.1 > |rest| {
        return None;
      }
      ghost var more := Stream(decode, name, rest[e.value.1..]);
      if more.Some? {
        assert entries + ([e.value.0] + more.value) == (entries + [e.value.0]) + more.value;
      }
      rest, entries := rest[e.value.1..], entries + [e.value.0];
    }
    assert entries + [] == entries;
    return Some(entries);
  }

  class ContractCode<E> {
    var size: nat
    var spec: seq<E>
    var envMeta: seq<E>
    var meta: seq<E>

    function View(): Metadata<E>
      reads this
    {
      Metadata(spec, envMeta, meta)
    }

    constructor (n: nat)
      ensures size == n && View() == Metadata([], [], [])
    {
      size, spec, envMeta, meta := n, [], [], [];
    }

    method AddCustomSection(decode: EntryDecoder<E>, c: CustomSection) returns (ok: bool)
      modifies this
      ensures size == old(size)
      ensures ok <==> Contribution(decode, c).Some?
      ensures ok ==> Some(View()) == Joined(old(View()), Contribution(decode, c))
    {
      hide Stream, SpecSection, EnvMetaSection, MetaSection;
      NamesDiffer();
      assert spec + [] == spec && envMeta + [] == envMeta && meta + [] == meta;
      if c.name == SpecSection() {
        var entries := DecodeSectionStream(decode, c.name, c.content);
        if entries.None? {
          return false;
        }
        spec := spec + entries.value;
      } else if c.name == EnvMetaSection() {
        var entries := DecodeSectionStream(decode, c.name, c.content);
        if entries.None? {
          return false;
        }
        envMeta := envMeta + entries.value;
      } else if c.name == MetaSection() {
        var entries := DecodeSectionStream(decode, c.name, c.content);
        if entries.None? {
          return false;
        }
        meta := meta + entries.value;
      }
      return true;
    }
  }

  lemma JoinedToNothing<E>(m: Option<Metadata<E>>)
    ensures Joined(Metadata([], [], []), m) == m
  {
    if m.Some? {
      assert [] + m.value.spec == m.value.spec && [] + m.value.envMeta == m.value.envMeta && [] + m.value.meta == m.value.meta;
    }
  }

  lemma JoinedNothing<E>(m: Metadata<E>)
    ensures Joined(m, Some(Metadata([], [], []))) == Some(m)
  {
    assert m.spec + [] == m.spec && m.envMeta + [] == m.envMeta && m.meta + [] == m.meta;
  }

  lemma JoinedAssociates<E>(a: Metadata<E>, b: Metadata<E>, c: Option<Metadata<E>>)
    ensures Joined(Joined(a, Some(b)).value, c) == Joined(a, Joined(b, c))
  {
    if c.Some? {
      Associate(a.spec, b.spec, c.value.spec);
      Associate(a.envMeta, b.envMeta, c.value.envMeta);
      Associate(a.meta, b.meta, c.value.meta);
    }
  }

  lemma UnreadableIsRefused<E>(decode: EntryDecoder<E>, b: Bytes)
    requires b != [] && FirstSection(b).None?
    ensures Parsed(decode, b).None?
  {
  }

  lemma NothingParsed<E>(decode: EntryDecoder<E>)
    ensures Parsed(decode, []) == Some(Metadata([], [], []))
  {
  }

  /** A section that is not custom adds nothing; a custom one adds its contribution in front of the rest. */
  lemma ParsedStep<E>(decode: EntryDecoder<E>, b: Bytes)
    requires b != [] && FirstSection(b).Some?
    ensures var s, rest := FirstSection(b).value.0, FirstSection(b).value.1;
            Parsed(decode, b) ==
            if s.id != 0 then Parsed(decode, rest)
            else if Custom(s.payload).None? || Contribution(decode, Custom(s.payload).value).None? then None
            else Joined(Contribution(decode, Custom(s.payload).value).value, Parsed(decode, rest))
  {
    hide FirstSection, Custom, Stream, SpecSection, EnvMetaSection, MetaSection;
    var s, rest := FirstSection(b).value.0, FirstSection(b).value.1;
    if Sections(rest).Some? {
      var tail := Sections(rest).value;
      var ss := [s] + tail;
      assert ss[1..] == tail && ss[0] == s;
      assert Sections(b) == Some(ss);
      assert Named(ss) <==> (s.id == 0 ==> Custom(s.payload).Some?) && Named(tail);
      NamesDiffer();
      JoinedToNothing(MetadataOf(decode, tail));
      if s.id == 0 && Custom(s.payload).Some? && Contribution(decode, Custom(s.payload).value).Some? && MetadataOf(decode, tail).Some? {
        var m := MetadataOf(decode, tail).value;
        assert [] + m.spec == m.spec && [] + m.envMeta == m.envMeta && [] + m.meta == m.meta;
      }
    }
  }

  lemma NamesDiffer()
    ensures SpecSection() != EnvMetaSection() && SpecSection() != MetaSection() && EnvMetaSection() != MetaSection()
  {
    assert |SpecSection()| == 14 && |EnvMetaSection()| == 17 && |MetaSection()| == 14;
    assert SpecSection()[8] != MetaSection()[8];
  }

  /**
   * The metadata of a module: all entries of its specification, environment and free-form
   * sections in order. It is refused unless the whole module follows the section grammar.
   */
  method ParseContractCode<E>(decode: EntryDecoder<E>, code: Bytes) returns (r: Outcome<ContractCode<E>>)
    ensures r.Ok? ==> fresh(r.value) && r.value.size == |code|
    ensures r == Err(NotWasm) <==> !IsWasm(code)
    ensures IsWasm(code) ==> (r.Ok? <==> Parsed(decode, code[HEADER_SIZE..]).Some?)
    ensures r.Ok? ==> IsWasm(code) && Some(r.value.View()) == Parsed(decode, code[HEADER_SIZE..])
  {
    hide ReadU, Parsed, Contribution, Custom;
    if !(|code| >= HEADER_SIZE && code[..4] == Magic() && code[4..HEADER_SIZE] == Version()) {
      return Err(NotWasm);
    }
    var parsed := new ContractCode<E>(|code|);
    var rest := code[HEADER_SIZE..];
    ghost var whole := Parsed(decode, rest);
    JoinedToNothing(whole);
    while rest != []
      invariant parsed.size == |code| && fresh(parsed)
      invariant whole == Joined(parsed.View(), Parsed(decode, rest))
      decreases |rest|
    {
      ghost var b := rest;
      var sectionId := rest[0];
      var size := ReadU32(rest[1..]);
      if size.None? {
        UnreadableIsRefused(decode, b);
        return Err(MalformedWasm);
      }
      ReadUFits(32, rest[1..]);
      rest := rest[1 + size.value.size..];
      if size.value.value > |rest| {
        UnreadableIsRefused(decode, b);
        return Err(MalformedWasm);
      }
      var payload := rest[..size.value.value];
      rest := rest[size.value.value..];
      assert FirstSection(b) == Some((Section(sectionId, payload), rest));
      ParsedStep(decode, b);
      if sectionId != 0 {
        continue;
      }
      var custom := CustomSectionOf(payload);
      if custom.None? {
        return Err(MalformedWasm);
      }
      ghost var before := parsed.View();
      var ok := parsed.AddCustomSection(decode, custom.value);
      if !ok {
        return Err(MalformedWasm);
      }
      JoinedAssociates(before, Contribution(decode, custom.value).value, Parsed(decode, rest));
    }
    NothingParsed(decode);
    JoinedNothing(parsed.View());
    return Ok(parsed);
  }

  // ---------------------------------------------------------------- the specification extractor

  /** What is left after skipping n bytes, which may lie past the end. */
  function Skipped(b: Bytes, n: nat): Bytes {
    if n <= |b| then b[n..] else []
  }

  /** The walk of the extractor from a section boundary. */
  function Extracted(b: Bytes): Outcome<Bytes>
    decreases |b|
  {
    if b == [] then Err(NoContractSpecSection)
    else
      var size := ReadVar(b[1..]);
      if size.None? then Err(MalformedWasm)
      else
        var body := Skipped(b[1..], size.value.size);
        if size.value.value > |body| then Err(MalformedWasm)
        else if b[0] != 0 then Extracted(body[size.value.value..])
        else ExtractedCustom(body, size.value.value)
  }

  /** The extractor in a custom section of the given size; it does not stop at the section's end while reading the name. */
  function ExtractedCustom(body: Bytes, size: nat): Outcome<Bytes>
    decreases |body|, 0
  {
    var name := ReadVar(body);
    if name.None? then Err(MalformedWasm)
    else
      var named := Skipped(body, name.value.size);
      if name.value.value > |named| then Err(MalformedWasm)
      else
        var header, rest := (name.value.size + name.value.value) % TWO_TO_THE_32, named[name.value.value..];
        if header > size then Err(MalformedWasm)
        else if named[..name.value.value] == SpecSection() then
          if size - header > |rest| then Err(MalformedWasm) else Ok(rest[..size - header])
        else Extracted(Skipped(rest, size - header))
  }

  lemma ReadVarFits(b: Bytes)
    ensures ReadVar(b).Some? ==> 1 <= ReadVar(b).value.size <= |b|
  {
    LebFits(b);
  }

  lemma SectionsEnd()
    ensures Extracted([]) == Err(NoContractSpecSection)
  {
  }

  /** One section of the extractor's walk, in terms of what the reader has consumed. */
  lemma SectionAt(b: Bytes)
    requires b != []
    ensures match ReadVar(b[1..])
            case None => Extracted(b) == Err(MalformedWasm)
            case Some(size) =>
              size.size <= |b| - 1 &&
              var body := b[1..][size.size..];
              Extracted(b) ==
              if size.value > |body| then Err(MalformedWasm)
              else if b[0] != 0 then Extracted(body[size.value..])
              else ExtractedCustom(body, size.value)
  {
    hide ReadVar, ExtractedCustom;
    ReadVarFits(b[1..]);
  }

  lemma SkippedWithin(b: Bytes, n: nat)
    requires n <= |b|
    ensures Skipped(b, n) == b[n..]
  {
  }

  /** The same for the inside of a custom section. */
  lemma NameAt(body: Bytes, size: nat)
    ensures match ReadVar(body)
            case None => ExtractedCustom(body, size) == Err(MalformedWasm)
            case Some(name) =>
              name.size <= |body| &&
              var named := body[name.size..];
              if name.value > |named| then ExtractedCustom(body, size) == Err(MalformedWasm)
              else
                var header, rest := (name.size + name.value) % TWO_TO_THE_32, named[name.value..];
                ExtractedCustom(body, size) ==
                if header > size then Err(MalformedWasm)
                else if named[..name.value] != SpecSection() then Extracted(Skipped(rest, size - header))
                else if size - header > |rest| then Err(MalformedWasm)
                else Ok(rest[..size - header])
  {
    hide ReadVar, Extracted, SpecSection, Skipped;
    ReadVarFits(body);
    if ReadVar(body).Some? {
      SkippedWithin(body, ReadVar(body).value.size);
    }
  }

  method ExtractWasmContractSpec(code: Bytes) returns (r: Outcome<Bytes>)
    ensures r == if |code| < HEADER_SIZE || code[..4] != Magic() then Err(NotWasm) else Extracted(code[HEADER_SIZE..])
  {
    hide ReadVar, Extracted, ExtractedCustom, Skipped, Magic, ByteReader.Rest;
    if |code| < HEADER_SIZE || code[..4] != Magic() {
      return Err(NotWasm);
    }
    var reader := new ByteReader(code[HEADER_SIZE..]);
    ghost var whole := Extracted(code[HEADER_SIZE..]);
    while true
      invariant fresh(reader) && whole == Extracted(reader.Rest())
      decreases |reader.Rest()|
    {
      ghost var b := reader.Rest();
      var sectionId := reader.ReadByte();
      if sectionId.None? {
        SectionsEnd();
        return Err(NoContractSpecSection);
      }
      SectionAt(b);
      var size := reader.ReadVarUint32();
      if size.None? {
        return Err(MalformedWasm);
      }
      ghost var body := reader.Rest();
      assert body == b[1..][ReadVar(b[1..]).value.size..];
      if size.value > |reader.Rest()| {
        return Err(MalformedWasm);
      }
      if sectionId.value == 0 {
        var found := SpecOfCustomSection(reader, size.value);
        if found.Some? {
          return found.value;
        }
      } else {
        reader.SkipForward(size.value);
      }
    }
  }

  /** Reads a custom section: the outcome if it ends the search, or the reader moved past the section. */
  method SpecOfCustomSection(reader: ByteReader, size: nat) returns (found: Option<Outcome<Bytes>>)
    modifies reader
    ensures found.Some? ==> found.value == ExtractedCustom(old(reader.Rest()), size)
    ensures found.None? ==> ExtractedCustom(old(reader.Rest()), size) == Extracted(reader.Rest()) && |reader.Rest()| <= |old(reader.Rest())|
  {
    hide ReadVar, SpecSection, Extracted, ExtractedCustom, ByteReader.Rest;
    NameAt(reader.Rest(), size);
    var start := reader.pos;
    var nameSize := reader.ReadVarUint32();
    if nameSize.None? {
      return Some(Err(MalformedWasm));
    }
    var name := reader.ReadFull(nameSize.value);
    if name.None? {
      return Some(Err(MalformedWasm));
    }
    var header := (reader.pos - start) % TWO_TO_THE_32;
    if header > size {
      return Some(Err(MalformedWasm));
    }
    if name.value == SpecSection() {
      var payload := reader.ReadFull(size - header);
      return Some(if payload.None? then Err(MalformedWasm) else Ok(payload.value));
    }
    reader.SkipForward(size - header);
    return None;
  }

  // ---------------------------------------------------------------- the two walks agree

  /** Wherever the module follows the grammar, the extractor finds the first specification section or says there is none. */
  lemma {:induction false} ExtractorFollowsGrammar(b: Bytes)
    requires Sections(b).Some? && Named(Sections(b).value)
    ensures Extracted(b) == match FirstNamed(Sections(b).value, SpecSection()) { case None => Err(NoContractSpecSection) case Some(c) => Ok(c) }
    decreases |b|
  {
    hide FirstSection, Custom, SpecSection, Extracted;
    if b == [] {
      SectionsEnd();
    } else {
      var s, rest := FirstSection(b).value.0, FirstSection(b).value.1;
      var ss, tail := Sections(b).value, Sections(rest).value;
      assert ss[0] == s && ss[1..] == tail;
      ExtractorStep(b);
      ExtractorFollowsGrammar(rest);
    }
  }

  lemma ExtractorStep(b: Bytes)
    requires b != [] && FirstSection(b).Some?
    requires FirstSection(b).value.0.id == 0 ==> Custom(FirstSection(b).value.0.payload).Some?
    ensures var s, rest := FirstSection(b).value.0, FirstSection(b).value.1;
            Extracted(b) ==
            if s.id == 0 && Custom(s.payload).value.name == SpecSection() then Ok(Custom(s.payload).value.content) else Extracted(rest)
  {
    hide ReadU, ReadVar, Custom, SpecSection, ExtractedCustom;
    var size := ReadU(32, b[1..]).value;
    StrictImpliesLenient(b[1..]);
    U32IsBounded(b[1..]);
    assert b[1..][size.size..] == b[1 + size.size..];
    if b[0] == 0 {
      ExtractorInCustom(b[1 + size.size..], size.value);
    }
  }

  lemma ExtractorInCustom(body: Bytes, size: nat)
    requires size <= |body| && size < TWO_TO_THE_32 && Custom(body[..size]).Some?
    ensures var c := Custom(body[..size]).value;
            ExtractedCustom(body, size) == if c.name == SpecSection() then Ok(c.content) else Extracted(body[size..])
  {
    hide ReadU, ReadVar, Extracted, ExtractedCustom, SpecSection;
    var r := ReadU(32, body[..size]).value;
    ReadUPrefix(32, body, size);
    StrictImpliesLenient(body);
    NameAt(body, size);
    SliceOfSlice(body, size, r.size, r.value);
  }

  /** Cutting a name and its content out of a section is cutting them out of what surrounds it. */
  lemma SliceOfSlice(b: Bytes, size: nat, start: nat, count: nat)
    requires start + count <= size <= |b|
    ensures b[..size][start..][..count] == b[start..][..count]
    ensures b[..size][start..][count..] == b[start..][count..][..size - (start + count)]
    ensures b[start..][count..][size - (start + count)..] == b[size..]
  {
  }

  lemma {:induction false} ReadUPrefix(n: nat, b: Bytes, k: nat)
    requires k <= |b| && ReadU(n, b[..k]).Some?
    ensures ReadU(n, b) == ReadU(n, b[..k])
  {
    if b[0] >= 128 {
      assert b[..k][1..] == b[1..][..k - 1];
      ReadUPrefix(n - 7, b[1..], k - 1);
    }
  }

  /** A module the parser accepts yields, from the extractor, exactly its first specification section. */
  lemma WalkersAgree<E>(decode: EntryDecoder<E>, code: Bytes)
    requires IsWasm(code) && Parsed(decode, code[HEADER_SIZE..]).Some?
    ensures var ss := Sections(code[HEADER_SIZE..]).value;
            Extracted(code[HEADER_SIZE..]) == match FirstNamed(ss, SpecSection()) { case None => Err(NoContractSpecSection) case Some(c) => Ok(c) }
  {
    ExtractorFollowsGrammar(code[HEADER_SIZE..]);
  }

  /** The parsed entries begin with those of the section the extractor finds, and there are none if it finds none. */
  lemma ExtractedSpecIsParsedFirst<E>(decode: EntryDecoder<E>, code: Bytes)
    requires IsWasm(code) && Parsed(decode, code[HEADER_SIZE..]).Some?
    ensures var spec := Parsed(decode, code[HEADER_SIZE..]).value.spec;
            match Extracted(code[HEADER_SIZE..])
            case Ok(content) => Stream(decode, SpecSection(), content).Some? && Stream(decode, SpecSection(), content).value <= spec
            case Err(failure) => failure == NoContractSpecSection && spec == []
  {
    hide Sections, Custom, Stream, Extracted, Magic, Version, SpecSection;
    WalkersAgree(decode, code);
    GatheredStartsWithFirst(decode, SpecSection(), Sections(code[HEADER_SIZE..]).value);
  }

  lemma {:induction false} GatheredStartsWithFirst<E>(decode: EntryDecoder<E>, name: Bytes, ss: seq<Section>)
    requires Gathered(decode, name, ss).Some?
    ensures match FirstNamed(ss, name)
            case None => Gathered(decode, name, ss).value == []
            case Some(content) => Stream(decode, name, content).Some? && Stream(decode, name, content).value <= Gathered(decode, name, ss).value
  {
    hide Custom, Stream;
    if ss != [] {
      var rest := Gathered(decode, name, ss[1..]);
      if ss[0].id != 0 || Custom(ss[0].payload).None? || Custom(ss[0].payload).value.name != name {
        GatheredStartsWithFirst(decode, name, ss[1..]);
      }
    }
  }

  // ---------------------------------------------------------------- assembling modules

  function Assembled(ss: seq<Section>): Bytes {
    if ss == [] then [] else [ss[0].id] + (EncodeU(|ss[0].payload|) + (ss[0].payload + Assembled(ss[1..])))
  }

  function CustomPayload(c: CustomSection): Bytes {
    EncodeU(|c.name|) + (c.name + c.content)
  }

  /** Sections written one after another are read back. */
  lemma {:induction false} AssembledIsRead(ss: seq<Section>)
    requires forall i :: 0 <= i < |ss| ==> |ss[i].payload| < TWO_TO_THE_32
    ensures Sections(Assembled(ss)) == Some(ss)
  {
    hide ReadU, EncodeU, Pow2;
    if ss != [] {
      var s, rest := ss[0], Assembled(ss[1..]);
      var size, body := EncodeU(|s.payload|), s.payload + rest;
      Powers();
      EncodedIsRead(32, |s.payload|, body);
      var b := Assembled(ss);
      assert b[1..] == size + body;
      assert b[1 + |size|..] == body by {
        DropConcat(size, body, |size|);
        assert b[1..][|size|..] == b[1 + |size|..];
      }
      assert body[..|s.payload|] == s.payload && body[|s.payload|..] == rest;
      assert FirstSection(b) == Some((s, rest));
      AssembledIsRead(ss[1..]);
      assert ss == [s] + ss[1..];
    }
  }

  lemma CustomPayloadIsRead(c: CustomSection)
    requires |c.name| < TWO_TO_THE_32
    ensures Custom(CustomPayload(c)) == Some(c)
  {
    hide ReadU, EncodeU, Pow2;
    var size, body := EncodeU(|c.name|), c.name + c.content;
    Powers();
    EncodedIsRead(32, |c.name|, body);
    assert (size + body)[|size|..] == body;
    assert body[..|c.name|] == c.name && body[|c.name|..] == c.content;
  }

  /** A specification placed behind any sections without one is what the extractor returns. */
  lemma {:induction false} PlacedSpecIsExtracted(before: seq<Section>, content: Bytes, after: seq<Section>)
    requires |content| < 0xffff_0000 && FirstNamed(before, SpecSection()).None? && Named(before) && Named(after)
    requires forall i :: 0 <= i < |before| ==> |before[i].payload| < TWO_TO_THE_32
    requires forall i :: 0 <= i < |after| ==> |after[i].payload| < TWO_TO_THE_32
    ensures var s := Section(0, CustomPayload(CustomSection(SpecSection(), content)));
            Extracted(Assembled(before + [s] + after)) == Ok(content)
  {
    hide Custom, Assembled, Extracted, Sections, EncodeU;
    var c := CustomSection(SpecSection(), content);
    var s := Section(0, CustomPayload(c));
    var ss := before + [s] + after;
    assert |SpecSection()| == 14;
    SmallEncoding(14);
    CustomPayloadIsRead(c);
    AssembledIsRead(ss);
    ExtractorFollowsGrammar(Assembled(ss));
    FirstNamedSkips(before, [s] + after, SpecSection());
    assert ss == before + ([s] + after);
    assert ([s] + after)[0] == s;
  }

  lemma SmallEncoding(n: nat)
    requires n < 128
    ensures |EncodeU(n)| == 1
  {
  }

  lemma {:induction false} FirstNamedSkips(before: seq<Section>, after: seq<Section>, name: Bytes)
    requires FirstNamed(before, name).None?
    ensures FirstNamed(before + after, name) == FirstNamed(after, name)
  {
    hide Custom;
    if before == [] {
      assert before + after == after;
    } else {
      assert (before + after)[1..] == before[1..] + after;
      FirstNamedSkips(before[1..], after, name);
    }
  }

  // ---------------------------------------------------------------- where they part

  /** A zero group adds nothing but a byte. */
  lemma ZeroGroup(b: Bytes)
    requires b != [] && b[0] == 0x80 && Leb(b[1..]).Some? && Leb(b[1..]).value.value == 0
    ensures Leb(b) == Some(Reading(0, Leb(b[1..]).value.size + 1))
  {
  }

  lemma PaddedFifteen(b: Bytes)
    requires |b| >= 6 && b[0] == 0x8f && b[1] == b[2] == b[3] == b[4] == 0x80 && b[5] == 0
    ensures Leb(b) == Some(Reading(15, 6))
  {
    assert Leb(b[5..]) == Some(Reading(0, 1));
    assert b[4..][1..] == b[5..] && b[3..][1..] == b[4..] && b[2..][1..] == b[3..] && b[1..][1..] == b[2..];
    ZeroGroup(b[4..]);
    ZeroGroup(b[3..]);
    ZeroGroup(b[2..]);
    ZeroGroup(b[1..]);
  }

  lemma SpecNameLength()
    ensures |SpecSection()| == 14
  {
  }

  lemma UnreadableSize(b: Bytes)
    requires b != [] && ReadU(32, b[1..]).None?
    ensures Sections(b).None?
  {
  }

  lemma OneByte(b: Bytes)
    requires b != [] && b[0] < 128
    ensures ReadVar(b) == Some(Reading(b[0], 1))
  {
  }

  /** A size padded to six bytes is beyond the grammar, yet the extractor reads on. */
  lemma PaddedSizeParts()
    ensures var b: Bytes := [0, 0x8f, 0x80, 0x80, 0x80, 0x80, 0x00, 14] + SpecSection();
            Sections(b).None? && Extracted(b) == Ok([])
  {
    hide SpecSection, Sections, Extracted, ExtractedCustom, ReadU, Leb;
    var b: Bytes := [0, 0x8f, 0x80, 0x80, 0x80, 0x80, 0x00, 14] + SpecSection();
    SpecNameLength();
    PaddedFifteen(b[1..]);
    ReadUIsBoundedLeb(32, b[1..]);
    UnreadableSize(b);
    SectionAt(b);
    var body := b[1..][6..];
    assert body == [14] + SpecSection();
    OneByte(body);
    NameAt(body, 15);
    assert body[1..][..14] == SpecSection();
  }
}
